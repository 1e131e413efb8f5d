# Verified models of the recovery tools

Dafny models of the parts of the recovery image that carry its hardest logic, each proved
against a specification of what it is for. `dafny verify dfyconfig.toml` checks all of it.

## What is modelled

**Binary patches** (`applypatch/`). `SuffixOrder`, `SuffixRanks`, `SuffixSplit`,
`BucketSort` and `SuffixSort` are the in-place suffix sort of bsdiff, on its arrays I and V.
The proofs carry two ghost permutations beside them: the suffix at each position, which I
holds only in part once negative run lengths overwrite it, and its inverse.
`MatchSearch` is the bisection for the best match, with the exact condition under which it
is the longest. `Bsdiff` is the scan, overlap and emit loop, `PatchFormat` the BSDIFF40
format with `Endian`'s integers, and `Bspatch` its reader. The main result is
`Bsdiff.DiffRoundTrip` with the contracts of `Bsdiff.Bsdiff` and
`Bspatch.ApplyBSDiffPatchMem`: for all old and new data, the reader applied to what the
writer wrote gives the new data. What the writer writes is fixed by `Bsdiff.Chosen`, which
follows the scan and the extensions turn by turn, and `Bsdiff.PatchUnique` shows that this
leaves one patch only. What the reader makes of any bytes at all, corrupt or not, is
`PatchFormat.PatchedIff`.

**Image patches.** `ImageChunks` splits an image into normal and deflate chunks,
`ChunkMerge` merges them in place, `MergeLaws` says what merging keeps. `ImgFormat` is the
layout of an IMGDIFF2 file and what a reader makes of it, `ImgPatch` the reader with its
sink and its running hash, and `ImgDiff` the writer in image mode. `ImgDiff.DiffImages`
states the round trip for every pair of images the writer accepts, and which plan is chosen
for each pair of chunks; `ImgDiff.ImageDiffUnique` shows that this leaves one file only.
`ImageParts` writes an image as gzip members and the data between them, with the numbers of
the format, and shows that such images and no others can be read, and as what chunks.
`ImgLayout` says byte by byte what each kind of record is read as.

**Updating a file.** `FileSystem` keeps every state the disk goes through, and may fail any
operation unless it is declared reliable. `FreeCache` makes room on /cache, `ApplyPatch`
replaces a file. Its contracts speak of every state of a run: in each, the update can still
be completed. `ApplyPatch.InterruptedRuns` composes any number of runs that are cut off
anywhere with a last one that meets no failure. `LoadPartition` finds out how much of a
partition is data. `Retouch` is the masking of relocated words that loading a file does,
and `ApplyPatch.MaskedStays` connects the two. `RetouchList` writes lists of relocated words
in their three forms, and says which bytes retouching changes in a file written with one.
`ApplyNames` spells out the names that tell a partition, the output, and what may be deleted.

**Archives.** `HashTable` is minzip's open-addressing table, `ZipIndex` the sorted index
over it, `Lexicographic` the order of names, and `Verifier` the structural checks that make
the signature and the archive reader agree on one end-of-central-directory record.
`ZipFormat` writes archives, field by field: `ZipFormat.ArchiveRoundTrip` says that one is
indexed as the files it was written from.

**Flash blocks** (`MtdBlocks`): buffered block writing and reading over bad blocks, with the
round trip for any pieces written and any lengths read.

**Threads** (`Yarn`): launching, joining and joining all, as steps of the threads over one
shared list. `Yarn.Safety` holds in every interleaving, and `Yarn.JoinAllBounded` shows that
joining all never gets stuck, and goes on only as long as its condition variable wakes it up
in vain. The class `ThreadList` has the list operations in the form the
program has them, proved against the steps.

**Sockets** (`AdbSocket`): a local socket of minadbd with its packet queue, its descriptor
and the packets that drive it. `AdbSocket.After` says what each event does to the socket,
down to the bytes written and the packets sent; `AdbSocket.Run` shows that it does so over any
sequence of events, and `AdbSocket.TrailAccounted` draws up the account of the packets.

**MD5** (`Md5`): the streaming context, with the block function as a parameter.

**Deduplicated backups**: `DedupeText` is the manifest's lines, `DedupeLines` puts lines of
both versions together from their fields, `DedupeStore` is the blobs,
`Dedupe` creating and extracting, `DedupeTree` what they make of a file tree, `DedupeGc` the
removal of unused blobs, `DedupeCut` the manifest of a run that was cut off, and `DedupeRuns`
what is safe over any sequence of runs. `DedupeRuns.BackupComesBack` is the main result.

Objects whose fields the program updates are classes, arrays it works on in place are
arrays, and each of its loops is a loop. A loop with a long body has that body, or its
parts, in methods of their own. Beside them stand functions that say what the result is,
and the lemmas are about these.

## Where the program departs from its own promises

The model follows the code in each of these.

- `search` does not always find the longest match (`MatchSearch.SearchMisled`);
  `MatchSearch.SearchIsLongest` says exactly when it does.
- Reading an image that ends in 1f 8b 08 makes no progress, unless a gzip member covers these
  bytes or reading fails before (`ImageChunks.NoProgressIff`).
- The least off_t does not survive the sign-and-magnitude form (`Endian.OfftRoundTrip`).
- Masking twice can fail when a relocation entry overlaps the list
  (`Retouch.MaskTwiceFails`).
- A block that is not marked bad but never verifies is skipped by the writer and read by the
  reader (`MtdBlocks.WornMisleads`); `MtdBlocks.RoundTrip` says how far reading is right.
- dedupe's collection goes on after meeting a newer manifest, and removes blobs that later
  manifests name (`DedupeGc.NewerManifestLoses`, `DedupeGc.LoseOne`); `DedupeGc.UsedExactly`
  with `DedupeGc.Collect` says exactly which blobs stay.
- The comment above `applypatch` promises that the original file is not touched until its
  replacement is there, and that a source other than the target is not deleted on success.
  The code deletes the source, after saving a copy of it, when there is not enough room for
  the target or the first attempt fails, and on success the copy too
  (`ApplyPatch.SourceIsDeleted`). In a run that meets no failure the source survives exactly
  if there is enough room (`ApplyPatch.SourceSurvives`).
- A manifest left by a create that was cut off keeps every later collection from removing
  anything, if the line it ends in is too short (`DedupeCut.CutReads`, `DedupeRuns.CollectRun`).
- A link whose target has more than 40 characters is backed up and cannot be restored
  (`DedupeText.LongLinkBreaks`); `DedupeText.LineRoundTrip` says exactly which lines can be
  read back.
- `mzHashTableRemove` compares identities and not hashes, so it may remove an item that was
  added under another hash (`HashTable.RemovesAnother`, `HashTable.AnotherMetFirst`);
  `HashTable.HashTable.Remove` says which entry goes, and exactly when it is the one asked for.

## Parameters

bzip2, zlib, SHA, and the MD5 block function are function parameters. What is asked of them
is stated where it is needed: a packed stream unpacks to what was packed whatever follows it
(`PatchFormat.Faithful`, which `PatchFormat.SomeCodecIsFaithful` shows can be met), an
inflated stream marks its own end (`ImageChunks.SelfDelimiting`), and dedupe's hash has 64
characters that can stand in a path (`DedupeStore.GoodHash`). That no two contents share a
hash is asked only of the contents that occur, and only where bytes are recovered
(`DedupeStore.CollisionFree`). The order qsort leaves equal elements in and the order
readdir lists files in are left open or are parameters, and so is the free space that
`applypatch` asks for. `ApplyPatch.Sound` collects what a patch set must satisfy: each
listed hash comes with a patch that leads to the wanted content, and masking is stable on
what is listed, for the contents that the source and the saved copy may come to have; and
the output of these patches with chunks left out has not the target's hash. It asks nothing
of other contents. `ApplyPatch.Placed` says that the target is a regular file and that the
paths do not clash.

## Model

| member | source | states |
|---|---|---|
| `SuffixSort.Qsufsort` | applypatch/bsdiff.c:121-157 | the sort stops, stays in bounds, and leaves I as the suffix array of the old data (every suffix once, strictly increasing) and V as its inverse |
| `SuffixSort.SuffixArrayUnique` | applypatch/bsdiff.c:121-157 | there is only one such array, so the result is determined by the old data |
| `SuffixOrder.LessIsLexicographic` | applypatch/bsdiff.c:121-157 | the order of the array is the lexicographic order of the suffixes, the shorter first when one is a prefix of the other |
| `SuffixOrder.LessTransitive` | applypatch/bsdiff.c:121-157 | a suffix between two others shares with each of them at least what they share with each other |
| `SuffixSort.Pass` | applypatch/bsdiff.c:139-154 | a pass at depth h sorts every group to depth 2h, and once every group stands alone it leaves one run over the whole array, which ends the loop |
| `SuffixSort.PassStep` | applypatch/bsdiff.c:141-152 | one turn moves on and keeps the numbers in V consistent with suffix order and the negative run lengths in I truthful |
| `SuffixSort.PassGroup` | applypatch/bsdiff.c:146-150 | recording the run and splitting the group leaves everything before the next group sorted to depth 2h |
| `SuffixSort.SplitGroup` | applypatch/bsdiff.c:147-149 | a group with a non-negative entry can be split, and splitting it keeps the pass invariant |
| `SuffixSort.RecordRun` | applypatch/bsdiff.c:146 | the run length written covers only groups of one and loses no mark |
| `SuffixSort.PassingAgain` | applypatch/bsdiff.c:139 | the end of a pass at depth h is the beginning of a pass at depth 2h, with every key V[I[k]+h] in range |
| `SuffixSort.AllSingle` | applypatch/bsdiff.c:139-156 | when the first run covers the array, V is the inverse of the suffix array |
| `SuffixSort.DepthBound` | applypatch/bsdiff.c:139 | a pass deeper than the data finds only groups of one, so the passes end |
| `SuffixSort.Buckets` | applypatch/bsdiff.c:126-137 | the bucket sort orders the suffixes by first byte, numbers them by the end of their bucket and marks only groups of one |
| `SuffixSort.MarkBuckets` | applypatch/bsdiff.c:136-137 | a position is marked exactly when it is the empty suffix or the whole bucket of a byte other than 0; every other position keeps its suffix |
| `SuffixSort.FirstNumbers` | applypatch/bsdiff.c:134-135 | each suffix carries the last position of its bucket |
| `SuffixSort.WholeBucketSingle` | applypatch/bsdiff.c:136 | a bucket of one is a group of one |
| `BucketSort.FillBuckets` | applypatch/bsdiff.c:126-130 | each bucket counter starts just before the bucket: at the number of bytes below it |
| `BucketSort.PlaceAll` | applypatch/bsdiff.c:132 | every suffix stands in the bucket of its first byte, no two in one place |
| `BucketSort.PlacedPerm` | applypatch/bsdiff.c:132-133 | the bucket-sorted array is a permutation of all suffixes |
| `BucketSort.FirstRankOrder` | applypatch/bsdiff.c:134 | a smaller first number means an earlier suffix, and equal numbers mean an equal first byte |
| `SuffixSplit.Split` | applypatch/bsdiff.c:60-119 | a block of suffixes that agree on h bytes is sorted to depth 2h, its groups numbered and marked, and nothing outside the block changes |
| `SuffixSplit.SplitSmall` | applypatch/bsdiff.c:64-81 | the selection case meets the same specification as the partition |
| `SuffixSplit.SelectLeast` | applypatch/bsdiff.c:66-76 | exactly the suffixes with the least key are brought to the front, and counted |
| `SuffixSplit.NumberGroup` | applypatch/bsdiff.c:77-78 | the group at the front, and nothing else, gets its last position as number, and a mark if it stands alone |
| `SuffixSplit.CountSides` | applypatch/bsdiff.c:84-89 | the two counts are the ends of the parts below and equal to the pivot |
| `SuffixSplit.PartitionFront` | applypatch/bsdiff.c:91-102 | the first loop fills the part below the pivot, staying inside the block although it writes through the ends of the other two parts |
| `SuffixSplit.PartitionBack` | applypatch/bsdiff.c:104-111 | after the second loop the block is below, equal and above the pivot, in this order |
| `SuffixSplit.PartitionBlock` | applypatch/bsdiff.c:83-111 | the three parts are in suffix order, and the middle one is not empty and agrees on 2h bytes |
| `SuffixRanks.KeyLess` | applypatch/bsdiff.c:64-76 | the number h bytes further on orders two suffixes that agree on h bytes |
| `SuffixRanks.KeyEqual` | applypatch/bsdiff.c:64-76 | equal numbers h bytes further on double the agreement |
| `MatchSearch.MatchLen` | applypatch/bsdiff.c:159-167 | the length of the longest common prefix |
| `MatchSearch.Search` | applypatch/bsdiff.c:169-193 | the recursion on the array computes the bisection Bisect, whose result is a true match: its position is in range and its length is the common prefix there |
| `MatchSearch.SearchIsLongest` | applypatch/bsdiff.c:169-193 | search over the whole array finds a longest match if and only if no probe is a suffix that runs out inside the new data while some other place matches more |
| `MatchSearch.SearchFindsLongest` | applypatch/bsdiff.c:185-192 | in particular when no non-empty suffix of the old data is a proper prefix of the new |
| `MatchSearch.SearchMisled` | applypatch/bsdiff.c:188 | the comparison of MIN bytes can miss the longest match: looking for "abx" in "aba" finds one byte where two match |
| `MatchSearch.SearchHits` | applypatch/bsdiff.c:169-193 | if the next new byte occurs in the old data at all, the match is not empty |
| `MatchSearch.BisectLongest` | applypatch/bsdiff.c:187-192 | the same equivalence for every interval of the bisection |
| `Endian.OfftRoundTrip` | applypatch/bsdiff.c:195-211 | offtin undoes offtout for every off_t but the least, and only for it fails |
| `Endian.OfftForm` | applypatch/bsdiff.c:195-211 | the bytes are the magnitude, least significant first, and 80 more in the last if the number is negative |
| `Endian.Write4RoundTrip` | applypatch/utils.c:22-53 | Read4 undoes Write4 exactly for the 32-bit integers |
| `Endian.Write8RoundTrip` | applypatch/utils.c:30-65 | Read8 undoes Write8 exactly for the 64-bit integers |
| `PatchFormat.TripleRoundTrip` | applypatch/bsdiff.c:343-353 | a control triple is read as it was written |
| `PatchFormat.ReplayAll` | applypatch/bspatch.c:198-246 | replaying the three streams of a list of steps gives its output and consumes each stream exactly |
| `PatchFormat.ControlsRoundTrip` | applypatch/bspatch.c:200-206 | the control stream of a list of steps is read as its triples |
| `PatchFormat.HeaderRoundTrip` | applypatch/bspatch.c:138-152 | the header of a patch is read back wherever in a larger file the patch stands |
| `PatchFormat.StreamsRoundTrip` | applypatch/bspatch.c:156-184 | the three windows the header names hold the three streams |
| `PatchFormat.PatchRoundTrip` | applypatch/bspatch.c:123-252 | a patch written for a list of steps, at any place of any file, yields the output of the steps |
| `PatchFormat.OutputSize` | applypatch/bsdiff.c:340-341 | the output is as long as the difference and extra streams together |
| `PatchFormat.ReplaySteps` | applypatch/bspatch.c:198-246 | a replay that succeeds follows steps with which the three streams begin, gives their output and leaves the rest of the streams |
| `PatchFormat.StepsReplay` | applypatch/bspatch.c:198-246 | streams that begin with those of steps whose output is as long as wanted are replayed to that output |
| `PatchFormat.PatchedIff` | applypatch/bspatch.c:138-246 | whatever the bytes, corrupt or not, a patch turns the old data into something if and only if "BSDIFF40" stands in front, the lengths at 8, 16 and 24 are not negative, and the streams they point at begin with those of steps whose output has the size the header gives; it is then that output |
| `Bspatch.FillBuffer` | applypatch/bspatch.c:84-98 | it succeeds exactly when the stream can deliver that many bytes, and then moves exactly these into place |
| `Bspatch.AddOldData` | applypatch/bspatch.c:220-225 | the old data is added modulo 256 where it exists; nothing else changes |
| `Bspatch.ApplyTriple` | applypatch/bspatch.c:199-245 | one triple produces the next part of the replay or fails exactly when the replay does; all accesses are in range |
| `Bspatch.ReplayStreams` | applypatch/bspatch.c:198-246 | the loop ends, and succeeds with the replayed bytes exactly when the replay is defined |
| `Bspatch.ApplyBSDiffPatchMem` | applypatch/bspatch.c:123-252 | the reader computes what the format says the patch makes of the old data, corrupt patches included |
| `Bsdiff.Scan` | applypatch/bsdiff.c:284-301 | the scan stops at the first position where the new match is as good as the old alignment and not empty, or better by more than eight bytes; the running score is a count, so never negative |
| `Bsdiff.ScanStep` | applypatch/bsdiff.c:286-300 | the score kept incrementally is the number of hits of the old alignment up to the furthest match |
| `Bsdiff.CountHits` | applypatch/bsdiff.c:290-293 | the inner loop brings the score up to the end of the match |
| `Bsdiff.HitFound` | applypatch/bsdiff.c:287-299 | a byte the old alignment hits occurs in the old data, so the search there finds something; this is what keeps the score from going negative |
| `Bsdiff.ExtendForward` | applypatch/bsdiff.c:304-309 | the shortest extension with the greatest gain (twice the hits less the length) |
| `Bsdiff.ExtendBackward` | applypatch/bsdiff.c:311-318 | the same, backwards from the new match |
| `Bsdiff.CutOverlap` | applypatch/bsdiff.c:320-329 | the overlap is cut at the first place where giving its front to the previous match gains most |
| `Bsdiff.Extend` | applypatch/bsdiff.c:304-333 | the two extensions fit between the matches and inside the old data, and are the ones above, cut where they overlap |
| `Bsdiff.DifferencesAdded` | applypatch/bsdiff.c:335-336 | adding the old bytes to the differences gives the new bytes back |
| `Bsdiff.Emit` | applypatch/bsdiff.c:304-360 | the step covers the new data up to the next match as the two extensions share it out, and its bytes, and nothing else, are added to the three streams |
| `Bsdiff.Turn` | applypatch/bsdiff.c:282-361 | one turn scans to the first place that stops, and writes the step of the extensions unless the match there only goes on with the old alignment |
| `Bsdiff.WriteSteps` | applypatch/bsdiff.c:281-362 | the loop makes progress, and the streams it leaves are those of the steps that the scan and the extensions choose, turn by turn; dblen + eblen is the size of the new data |
| `Bsdiff.ChosenRebuilds` | applypatch/bsdiff.c:281-362 | the steps chosen rebuild the new data exactly, and each fits the format |
| `Bsdiff.ChosenUnique` | applypatch/bsdiff.c:281-362 | the old and the new data alone decide the steps |
| `Bsdiff.Bsdiff` | applypatch/bsdiff.c:213-410 | the file written is the patch file of the steps chosen, and they rebuild the new data; the suffix array is computed once and can be passed in again |
| `Bsdiff.PatchUnique` | applypatch/bsdiff.c:213-410 | so there is only one patch that bsdiff can write for given data |
| `Bsdiff.DiffRoundTrip` | applypatch/bsdiff.c:213-410 | ApplyBSDiffPatchMem applied to what bsdiff writes, wherever the patch stands in a larger file, gives the new data |
| `ImageChunks.ReadImage` | applypatch/imgdiff.c:376-519 | the reader computes the chunks of the image, or says how it fails; ImageParts.ReadsIff and ImageParts.MemberFails say in bytes which |
| `ImageChunks.SplitTiles` | applypatch/imgdiff.c:376-519 | the chunks of every image that can be read tile it from the first byte to the last and describe the bytes they cover |
| `ImageChunks.ScanForGzip` | applypatch/imgdiff.c:506-513 | the scan stops at the next gzip header without optional fields, or at the end |
| `ImageChunks.ReadGzip` | applypatch/imgdiff.c:406-491 | a member gives a normal chunk, a deflate chunk and a normal chunk, or the failure the footer or the buffer causes; ImageParts.MemberRead says in bytes which |
| `ImageChunks.NoProgressIff` | applypatch/imgdiff.c:406-514 | the reader stalls if and only if the image ends in 1f 8b 08 and no gzip member that is read covers these bytes |
| `ImageChunks.NoProgressAlone` | applypatch/imgdiff.c:406-514 | in particular on every image that ends so and holds no complete gzip header |
| `ImageChunks.NoProgressEnd` | applypatch/imgdiff.c:406-514 | whatever the image, the reader stalls only if it ends in 1f 8b 08 |
| `ImageParts.MemberRead` | applypatch/imgdiff.c:406-491 | a gzip member written as ten header bytes that start 1f 8b 08 00, n bytes that inflate to its data, four bytes, and the size of the data is read as a normal chunk of 10, a deflate chunk of n and a normal chunk of 8 bytes, with whatever is in front and behind |
| `ImageParts.DataPassed` | applypatch/imgdiff.c:506-513 | data in which no header starts is passed over as a whole |
| `ImageParts.MadeReads` | applypatch/imgdiff.c:396-519 | an image written as members and data between them is read as the chunks of these parts |
| `ImageParts.ReadMade` | applypatch/imgdiff.c:396-519 | every image that can be read is written so |
| `ImageParts.ReadsIff` | applypatch/imgdiff.c:396-519 | an image is read as given chunks if and only if it is made of parts with these chunks |
| `ImageParts.MemberFails` | applypatch/imgdiff.c:406-491 | which outcome a header without its ten bytes, a body that does not inflate, a missing footer and a wrong size give |
| `ChunkMerge.MergeAdjacentNormalChunks` | applypatch/imgdiff.c:712-760 | in place, the first chunks of the array become the list with every run of adjoining normal chunks joined; the rest of the array is untouched |
| `ChunkMerge.FindRun` | applypatch/imgdiff.c:716-729 | the run found is the longest that starts there |
| `ChunkMerge.JoinRun` | applypatch/imgdiff.c:731-754 | one chunk for the whole run, at the output position and nowhere else |
| `MergeLaws.MergedSettles` | applypatch/imgdiff.c:712-760 | no two neighbours are left that could be merged, whatever the list |
| `MergeLaws.SettledStays` | applypatch/imgdiff.c:712-760 | merging again changes nothing |
| `MergeLaws.MergedTiles` | applypatch/imgdiff.c:712-760 | merging keeps the tiling, so the chunks cover the same bytes |
| `MergeLaws.MergedSameKinds` | applypatch/imgdiff.c:922-940 | parallel lists that tile their images stay parallel when merged, so "merging normal chunks went awry" is unreachable |
| `MergeLaws.MergedAlternates` | applypatch/imgdiff.c:712-760 | of two neighbours in a merged tiled list at least one is a deflate chunk |
| `ImgFormat.RecordsSize` | applypatch/imgdiff.c:977-991 | the header size computed beforehand is the number of header bytes written |
| `ImgFormat.OffsetPoints` | applypatch/imgdiff.c:997-1046 | at the offset of each chunk the file holds that chunk's own patch |
| `ImgFormat.RecordWhere` | applypatch/imgdiff.c:997-1036 | the record of each chunk stands behind those before it and carries that offset |
| `ImgFormat.ParamsRoundTrip` | applypatch/imgdiff.c:1029-1033 | the five encoder parameters are read as they were written |
| `ImgFormat.ImgRoundTrip` | applypatch/imgpatch.c:38-232 | a file laid out for plans that make the pieces of a target makes the reader emit the whole target and succeed |
| `ImgFormat.ApplyLaidOut` | applypatch/imgpatch.c:60-229 | the same from any chunk on |
| `ImgFormat.PartsMake` | applypatch/imgpatch.c:60-229 | the outputs of the chunks, one after the other, are the output |
| `ImgFormat.RawReads` | applypatch/imgpatch.c:83-103 | a raw record makes the reader emit its bytes and move to the next record |
| `ImgFormat.NormalReads` | applypatch/imgpatch.c:69-82 | a normal record makes it emit the patched window of the source |
| `ImgFormat.DeflateReads` | applypatch/imgpatch.c:104-224 | a deflate record makes it emit the recompressed, patched, inflated window |
| `ImgFormat.BonusForOne` | applypatch/imgpatch.c:131-174 | chunk 1 is expanded with the bonus, chunk 0 and those from number 2 on as if there were none, and a record that stops stops the reader |
| `ImgFormat.BonusPassed` | applypatch/imgpatch.c:131 | from number 2 on the chunks come out the same with any bonus and without |
| `ImgLayout.NormalAt` | applypatch/imgpatch.c:69-82 | a record 00 00 00 00 with source start, source length and patch offset in eight bytes each emits the window of the source patched from that offset, and nothing if that is no patch, and is 28 bytes long |
| `ImgLayout.RawAt` | applypatch/imgpatch.c:83-103 | a record 03 00 00 00 with a length in four bytes emits that many bytes, or stops the reader if they are not there |
| `ImgLayout.DeflateAt` | applypatch/imgpatch.c:104-224 | a record 02 00 00 00 emits the deflated patch of the inflated window and the bonus, with the expanded length at 28 and level, method, window bits, memory level and strategy from 44 on, and is 64 bytes long; it stops the reader if the window does not inflate, the lengths do not agree or the patch is none |
| `ImgLayout.OtherAt` | applypatch/imgpatch.c:62-112 | any other kind, and a record that does not fit, stops the reader |
| `ImgLayout.FileStarts` | applypatch/imgpatch.c:44-60 | the file starts with "IMGDIFF2" and the number of records, the first of which is at 12; any other is refused |
| `ImgPatch.Sink.Write` | applypatch/applypatch.c:639-668 | a piece goes into the sink whole when there is room; without room MemorySink returns -1 and takes nothing, and FileSink takes a prefix and says how long it is |
| `ImgPatch.ApplyBSDiffPatch` | applypatch/bspatch.c:100-121 | -1 for a corrupt patch, 1 for a short write, 0 with the whole output in the sink and in the hash |
| `ImgPatch.PushPieces` | applypatch/imgpatch.c:208-220 | the compressed output goes through the buffer in pieces, all of it |
| `ImgPatch.ApplyRecord` | applypatch/imgpatch.c:61-228 | one record does what the format says, or fails for want of room |
| `ImgPatch.ApplyImagePatch` | applypatch/imgpatch.c:38-232 | with room for the output, the sink and the hash both get exactly what Apply defines; without it, success still means that hash and sink agree once the hash has seen as many bytes, and that the hash has seen the outputs of the chunks, in order, some of them left out |
| `ImgPatch.ApplyChecked` | applypatch/applypatch.c:950-1006 | a run into a sink of any room, checked by its hash as applypatch does: if the output with chunks left out has not the wanted digest, success with that digest means the wanted bytes are in the sink, although the result of a normal chunk is ignored; with room it succeeds with that digest |
| `ImgDiff.TryReconstruction` | applypatch/imgdiff.c:529-566 | it succeeds exactly when deflating the chunk's data again, with method 8, window bits -15, memory level 8 and strategy 0, gives the bytes it came from |
| `ImgDiff.ReconstructDeflateChunk` | applypatch/imgdiff.c:574-599 | it succeeds exactly when level 6 or level 9 rebuilds the chunk, and prefers 6 |
| `ImgDiff.PreparePair` | applypatch/imgdiff.c:879-920 | both chunks of a pair become normal exactly when the target cannot be rebuilt or nothing has changed; otherwise the level is recorded |
| `ImgDiff.PreparePairs` | applypatch/imgdiff.c:879-920 | the same for every pair, each independently of the others |
| `ImgDiff.MergePairs` | applypatch/imgdiff.c:922-940 | both lists are merged, their counts agree, and they stay parallel and keep tiling their images |
| `ImgDiff.SecondIsDeflate` | applypatch/imgdiff.c:958-963 | the second chunk of a merged image is a deflate chunk, so the bonus data is appended to a buffer of its own |
| `ImgDiff.MakePatch` | applypatch/imgdiff.c:607-669 | the plan made for a pair makes the bytes the target chunk covers; a normal chunk goes in raw exactly when it is short or the patch bsdiff makes of it would not be shorter |
| `ImgDiff.PlanUnique` | applypatch/imgdiff.c:607-669 | the pair of chunks leaves one plan only |
| `ImgDiff.MakePatches` | applypatch/imgdiff.c:949-971 | every chunk gets the plan that the raw rule and bsdiff's patch choose for its pair, with the bonus for chunk 1, and it makes the chunk's bytes |
| `ImgDiff.TotalHeaderSize` | applypatch/imgdiff.c:977-991 | the running sum is the size of the header |
| `ImgDiff.WriteFile` | applypatch/imgdiff.c:997-1046 | what is written is the file of the plans |
| `ImgDiff.SameStructure` | applypatch/imgdiff.c:858-877 | the check passes exactly when the two lists have the same kinds in the same order |
| `ImgDiff.DiffImages` | applypatch/imgdiff.c:839-1046 | a patch is written exactly when both images can be read and have the same structure; it is the file of the plans chosen for the prepared and merged pairs, and ApplyImagePatch then turns the source into the target |
| `ImgDiff.PlannedUnique` | applypatch/imgdiff.c:879-971 | two lists of chunks leave one list of plans only |
| `ImgDiff.ImageDiffUnique` | applypatch/imgdiff.c:839-1046 | so the two images and the bonus decide every byte of the file |
| `FileSystem.FileSystem.FileSink` | applypatch/applypatch.c:639-652 | some prefix of the data ends up in the file, all of it where nothing fails; in every state on the way the file holds a beginning of it, and no other file is touched |
| `FreeCache.FindExpendableFiles` | applypatch/freecache.c:74-126 | every name found is a file on the disk, directly in /cache or /cache/recovery/otatest, and never the saved source; where nothing fails, all of them are found |
| `FreeCache.EliminateOpenFiles` | applypatch/freecache.c:14-72 | in place, names are struck out and the others stay where they are; none is added |
| `FreeCache.UnlinkUntil` | applypatch/freecache.c:156-171 | a file goes only while there is too little room, and deleting stops with enough room or no name left; only the expendable files dealt with go |
| `FreeCache.MakeFreeSpaceOnCache` | applypatch/freecache.c:128-172 | with room enough to begin with nothing is deleted; otherwise every state on the way differs from the first only in expendable files; it succeeds exactly if the room found last is enough |
| `ApplyPatch.FindMatchingPatch` | applypatch/applypatch.c:578-589 | the first entry with the hash, or -1 when there is none |
| `ApplyPatch.LoadFileContents` | applypatch/applypatch.c:53-106 | what is loaded is the masked file with its hash |
| `ApplyPatch.SaveFileContents` | applypatch/applypatch.c:327-356 | success means the file holds the data; no other file changes |
| `ApplyPatch.MaskedStays` | applypatch/applypatch.c:90-102 | a file whose relocation list is not among the words it names can be masked a second time without change, which is what Sound asks of the mask |
| `ApplyPatch.StillSafe` | applypatch/applypatch.c:843-1041 | as long as the file that makes the state safe is not written to, every state stays safe |
| `ApplyPatch.Choose` | applypatch/applypatch.c:745-801 | the target is right, or a file with a listed hash is chosen with the patch that leads from it to the wanted target, the source before the saved copy |
| `ApplyPatch.BackUpSource` | applypatch/applypatch.c:882-911 | every state on the way is safe: the source is deleted only when the saved copy has a listed hash, and saved only with room for it |
| `ApplyPatch.WriteOutput` | applypatch/applypatch.c:914-984 | only the .patch file is written, and it holds the whole output if the hash is right |
| `ApplyPatch.TryOnce` | applypatch/applypatch.c:862-984 | after every attempt the file patched from is still there, in the source or in the saved copy; the source is deleted in a first attempt only without room enough |
| `ApplyPatch.TryAll` | applypatch/applypatch.c:843-1000 | the retry loop ends; with room enough and no second attempt only the output and expendable files are written to, and without room and without failures the source is gone when it ends; there is a second attempt exactly if there was room enough and the first failed |
| `ApplyPatch.PutInPlace` | applypatch/applypatch.c:1016-1041 | the saved copy goes only after the target has the wanted hash, and only if this run made it |
| `ApplyPatch.GenerateTarget` | applypatch/applypatch.c:813-1042 | success means the wanted target; every state on the way is safe; without failures it succeeds; when the original is kept, and when it is missing on the way, as for applypatch |
| `ApplyPatch.ApplyPatch` | applypatch/applypatch.c:691-811 | in every state of a run that starts safe the target has the wanted hash, or the source or the saved copy has a listed one; success means the wanted target; a target that is already right is left alone. The original is kept, in every state, until the wanted file replaces it, if the run does not patch from the source, or has room enough and its first attempt does not fail; without room, in a run without failures that patches from it, there is a state in which it is gone and the target not there, and in the end the saved copy is gone too |
| `ApplyPatch.SourceSurvives` | applypatch/applypatch.c:691-708 | in a run without failures that makes another file from the source, the source is there in the end, and unchanged in every state, if and only if the free space passes the guard |
| `ApplyPatch.SourceIsDeleted` | applypatch/applypatch.c:870-905 | a run on a concrete disk and patch in which the source is deleted before the target is there, and for good |
| `ApplyPatch.CutOff` | applypatch/applypatch.c:745-801 | a run that may meet any failure and is cut off in any of its states leaves a safe state |
| `ApplyPatch.InterruptedRuns` | applypatch/applypatch.c:745-801 | after any number of interrupted runs, one that meets no failure ends with the target as it should be |
| `ApplyNames.PartitionNames` | applypatch/applypatch.c:55-58 | a partition is what starts with "MTD:" or "EMMC:" |
| `ApplyNames.LoadedAs` | applypatch/applypatch.c:55-102 | a partition is loaded as it is, a file is masked |
| `ApplyNames.OutNames` | applypatch/applypatch.c:727-730 | the output goes to the target's name with ".patch", and a target "-" is the source |
| `ApplyNames.ExpendableNames` | applypatch/freecache.c:83-101 | files in /cache but for saved.file, and in /cache/recovery/otatest, may be deleted |
| `ApplyNames.ExpendableOnly` | applypatch/freecache.c:83-101 | and no others |
| `ApplyNames.MaskWritten` | applypatch/applypatch.c:90-102 | masking gives a binary written with a list of relocated words their original values back and changes nothing else |
| `ApplyNames.MaskOther` | applypatch/applypatch.c:90-102 | a file without the two records at its end stays as it is |
| `ApplyNames.PatchFormats` | applypatch/applypatch.c:965-980 | "BSDIFF40" and "IMGDIFF2" tell the two kinds of patch; there is no other |
| `LoadPartition.ReadUpTo` | applypatch/applypatch.c:234-258 | the data read so far is a prefix of the partition and the running hash has been fed exactly that prefix; sizes that repeat read nothing |
| `LoadPartition.TryPair` | applypatch/applypatch.c:233-283 | a pair is accepted exactly when the hash of the prefix of its size is the one listed |
| `LoadPartition.FirstIsSmallest` | applypatch/applypatch.c:185-188 | the first pair that fits, in order of size, has the smallest size of all that fit |
| `LoadPartition.TooShort` | applypatch/applypatch.c:249-255 | when the partition is too short for one size, no later pair can fit |
| `LoadPartition.LoadPartitionContents` | applypatch/applypatch.c:140-322 | what is loaded is the prefix of the smallest listed size that has a listed hash; loading succeeds if and only if no size is zero and some pair fits that only pairs with hashes that can be parsed come before |
| `LoadPartition.FoundIfFits` | applypatch/applypatch.c:233-283 | where all hashes can be parsed, that is if and only if any pair fits |
| `Retouch.Decoder.DecodeInMemory` | minelf/Retouch.c:81-107 | one entry is decoded relative to the one before, which it replaces in the decoder; RetouchList.FormReads says what each of the three forms is decoded to |
| `Retouch.RetouchMaskData` | minelf/Retouch.c:109-196 | in place, the file becomes what Retouch defines, with the code and the offset it reports; the loop ends; RetouchList.WrittenRetouched says which bytes these are |
| `Retouch.RunPuts` | minelf/Retouch.c:147-186 | retouching to d rewrites exactly the words of the listed entries and never reports a mismatch |
| `Retouch.PutAllTwice` | minelf/Retouch.c:168-169 | the result does not depend on what the words held before |
| `Retouch.PutAllKeepsList` | minelf/Retouch.c:141-169 | where the entries keep clear of the list, the list is read as before |
| `Retouch.RetouchKeepsList` | minelf/Retouch.c:109-196 | a retouched file is recognised and has the same list |
| `Retouch.RetouchTwice` | minelf/Retouch.c:109-196 | the last offset is all that counts: masking is idempotent, and masking to 0 undoes any earlier masking |
| `Retouch.RetouchInferred` | minelf/Retouch.c:171-195 | with at least one entry, and words that do not overlap, a following inference call returns MATCHED and exactly d |
| `Retouch.MaskTwiceFails` | minelf/Retouch.c:155-169 | an entry that overlaps the list breaks it: a file is given that masks once and then is an error |
| `RetouchList.TwoReads` | minelf/Retouch.c:47-56 | 80 + 20 (words - 1) + the high five bits of the growth, and its low byte, are decoded as so many words on and so much more, modulo 2^32 |
| `RetouchList.ThreeReads` | minelf/Retouch.c:57-66 | the same for three bytes, which start with 40 |
| `RetouchList.EightReads` | minelf/Retouch.c:67-79 | eight bytes are decoded as offset and value, most significant byte first, and offset 3fffffff as -1 |
| `RetouchList.FormReads` | minelf/Retouch.c:81-107 | each form has the length its first byte tells |
| `RetouchList.ListReads` | minelf/Retouch.c:147-162 | a list written in any of these forms reads back as what they mean, and ends where it should |
| `RetouchList.FormMeans` | minelf/Retouch.c:43-45 | the shortest form of an entry means that entry |
| `RetouchList.FormsMean` | minelf/Retouch.c:43-45 | and so for a list |
| `RetouchList.EntriesRoundTrip` | minelf/Retouch.c:143-162 | every list of entries that the full form has room for reads back from its shortest forms |
| `RetouchList.WrittenFound` | minelf/Retouch.c:117-141 | a body, a list, "RETOUCH ", the size of the list, an address and "PRE " are recognised, and the list is found where it is |
| `RetouchList.WrittenRetouched` | minelf/Retouch.c:109-196 | retouching such a file to d, with words that do not overlap, makes each listed word its original value and d modulo 2^32, -1 naming the address, changes no other byte, and returns MATCHED and d |
| `HashTable.HashSize` | minzip/Hash.c:26-28 | the size for n entries is the least of which they take less than five eighths |
| `HashTable.RoundUpIsLeast` | minzip/Hash.c:35-46 | the least power of two that is not less, in 32-bit arithmetic, for 1 to 2^31 |
| `HashTable.HashTable.constructor` | minzip/Hash.c:51-72 | an empty table that is valid |
| `HashTable.HashTable.Probe` | minzip/Hash.c:190-211 | probing ends, at a match or at an empty slot, and at an empty slot no entry of the table matches; the escape for tables of one slot is never taken |
| `HashTable.HashTable.Found` | minzip/Hash.c:190-211 | a slot that matches holds an item of the set |
| `HashTable.HashTable.Lookup` | minzip/Hash.c:179-248 | the table is a set keyed by hash and comparison: a match is found if there is one, an item is added only if there is none, and the table doubles exactly when five eighths are passed |
| `HashTable.HashTable.Resize` | minzip/Hash.c:137-172 | the same entries in a table of another size, without tombstones, all reachable |
| `HashTable.HashTable.MoveEntry` | minzip/Hash.c:151-162 | an entry moved into the new table is reachable there |
| `HashTable.HashTable.Remove` | minzip/Hash.c:255-285 | the entry where probing from the hash first meets the item, whatever hash it was added under, and no other, becomes a tombstone and leaves the set; nothing is found exactly when nothing is met, and then the item is not there under this hash; exactly the item asked for is found and removed if and only if nothing is met or the first entry met was added under this hash; the load stays |
| `HashTable.FirstMetUnique` | minzip/Hash.c:255-285 | there is one such entry |
| `HashTable.RemovesAsked` | minzip/Hash.c:255-285 | taking the entry met first away takes away exactly the one asked for if and only if it was added under the hash asked for |
| `HashTable.AnotherMetFirst` | minzip/Hash.c:255-285 | a table with one item under two hashes, where asking for the one takes the other |
| `HashTable.MetFrom` | minzip/Hash.c:255-285 | probing meets an item from every hash that has the home of its own |
| `HashTable.RemovesAnother` | minzip/Hash.c:255-285 | a run in which removing an item under one hash removes it under another |
| `HashTable.HashTable.Clear` | minzip/Hash.c:77-97 | the table is empty and keeps its size |
| `HashTable.InsertReachable` | minzip/Hash.c:213-217 | a new entry where probing met an empty slot leaves every entry reachable past the tombstones |
| `HashTable.InsertUnique` | minzip/Hash.c:213-217 | and no two entries match |
| `HashTable.NotThere` | minzip/Hash.c:193-213 | an item that probing does not meet before an empty slot is nowhere in the table |
| `HashTable.SomeEmpty` | minzip/Hash.c:237-238 | a table that is not full has an empty slot, which is why probing ends |
| `HashTable.HashSizeSuffices` | minzip/Hash.c:26-28 | adding one to fewer than n entries never passes the limit of a table sized for n |
| `HashTable.BeforeIs` | minzip/Hash.c:196-215 | probing starts at the hash modulo the size and passes the slots one after the other |
| `HashTable.NextIs` | minzip/Hash.c:208-213 | and goes on at the start behind the last slot |
| `HashTable.AddAll` | minzip/Hash.c:26-46 | a table sized for n entries absorbs n adds without being resized, and holds them |
| `ZipIndex.CompareNames` | minzip/Zip.c:293-302 | the comparison is the lexicographic order, a prefix first |
| `ZipIndex.FindTarget` | minzip/Zip.c:281-313 | the bisection finds a place behind everything that does not come after the new name, and behind an entry of the same name if there is one |
| `ZipIndex.InsertAt` | minzip/Zip.c:313-326 | the entries from the place on move up by one |
| `ZipIndex.InsertedSorted` | minzip/Zip.c:278-326 | inserting there keeps the entries sorted |
| `ZipIndex.InsertedEarliest` | minzip/Zip.c:278-326 | and keeps the earliest entry of each name the first of its name |
| `ZipIndex.InsertEntry` | minzip/Zip.c:278-341 | the array stays sorted, a rearrangement of the directory, with the earliest of each name first |
| `ZipIndex.FindMark` | minzip/Zip.c:212-222 | the backward scan stops at the last place that has the mark |
| `ZipIndex.ReadDirectory` | minzip/Zip.c:248-392 | every entry of a well-formed directory is indexed; anything else is refused; ZipFormat says in bytes what an entry is |
| `ZipIndex.ComputeHash` | minzip/Zip.c:136-144 | the loop computes the hash the table is keyed by |
| `ZipIndex.HashEntries` | minzip/Zip.c:394-404 | the table knows each name by its first entry, and is never resized |
| `ZipIndex.ParseZipArchive` | minzip/Zip.c:187-414 | parsing succeeds exactly on archives with a well-formed directory, and the archive then indexes it; ZipFormat.ArchiveRoundTrip says what that is for an archive that was written |
| `ZipIndex.ZipArchive.FindZipEntry` | minzip/Zip.c:505-512 | the entry found is the earliest of the central directory with that name, or none if there is none; the archive still indexes its directory, so it can be asked again |
| `ZipIndex.FirstIsEarliest` | minzip/Zip.c:278-326 | sorting does not change which entry is the first of its name |
| `ZipIndex.NoMoreUnder` | minzip/Zip.c:1012-1017 | behind a match and a mismatch there are no more matches |
| `ZipIndex.EntriesUnder` | minzip/Zip.c:988-1023 | stopping at the first mismatch after a match still visits every entry under the path |
| `ZipIndex.SelectEntries` | minzip/Zip.c:930-1023 | an absolute path is refused; otherwise the entries selected are those under the path with its slash |
| `ZipIndex.ExtractsExactly` | minzip/Zip.c:985-1023 | they are exactly the entries of the archive whose names start with the path |
| `ZipIndex.SelectsUnder` | minzip/Zip.c:954-968 | a path selects the names that are the path, a slash and more, whether it ends in a slash or not, and the empty path all of them |
| `ZipFormat.CentralFields` | minzip/Zip.c:248-341 | each field of a directory entry is read where the format has it |
| `ZipFormat.LocalFields` | minzip/Zip.c:369-377 | and so are the two lengths of a local header |
| `ZipFormat.EntryReads` | minzip/Zip.c:248-391 | a directory entry and a local header written for a file are read as its name, the place of its data, both lengths, its attributes and the place of the next entry |
| `ZipFormat.EntryThat` | minzip/Zip.c:248-391 | every entry that is accepted is that of such a file |
| `ZipFormat.DirectoryReads` | minzip/Zip.c:248-392 | a directory is read entry by entry |
| `ZipFormat.EndFound` | minzip/Zip.c:212-222 | the record behind which no mark follows is the one that is found |
| `ZipFormat.ArchiveIs` | minzip/Zip.c:194-237 | the number of entries at 8 and the place of the directory at 16 of that record decide what is read; without a local header in front, with no entry, or with the directory outside the archive is refused |
| `ZipFormat.ArchiveRoundTrip` | minzip/Zip.c:187-392 | an archive written as files with local headers, their directory and an end record is indexed as these files, and holds the data of each where the index says |
| `ZipFormat.FindsFile` | minzip/Zip.c:505-512 | the entry found for a name is that of the first file with this name |
| `Lexicographic.PrefixBetween` | minzip/Zip.c:985-1023 | names that start with the path lie together in the order |
| `Verifier.SecondMark` | verifier.cpp:123-135 | the scan finds a second mark exactly when there is one anywhere behind the first |
| `Verifier.CheckStructure` | verifier.cpp:43-135 | the structural checks pass exactly on the files with a footer, a long enough signature, a record where the footer says and no later mark |
| `Verifier.ScanAgrees` | verifier.cpp:123-135 | on a file that passes, minzip's backward scan lands on the record the signature footer names |
| `Verifier.SignedPasses` | verifier.cpp:43-135 | a file with an end record and a comment that ends in the signature start, ff ff and its own size passes if and only if the start leaves room for 256 bytes and the footer and no other mark follows; what is signed is everything up to the comment size |
| `MtdBlocks.WriteContext.TryBlock` | mtdutils/mtdutils.c:421-461 | two tries write a good block and never a worn one; no other block changes |
| `MtdBlocks.WriteContext.WriteBlock` | mtdutils/mtdutils.c:400-467 | the data goes to the next good block, and it fails exactly when there is none |
| `MtdBlocks.WriteContext.FillBuffer` | mtdutils/mtdutils.c:473-480 | the buffer takes what fits, and what is on the flash and in the buffer is what was handed over |
| `MtdBlocks.WriteContext.FlushFull` | mtdutils/mtdutils.c:482-486 | a full buffer is written out and emptied |
| `MtdBlocks.WriteContext.WriteWhole` | mtdutils/mtdutils.c:488-492 | whole blocks go straight to the flash, only when nothing is buffered |
| `MtdBlocks.WriteContext.WriteData` | mtdutils/mtdutils.c:469-496 | it fails exactly when the good blocks run out; otherwise all of the data has been taken |
| `MtdBlocks.WriteContext.FlushPending` | mtdutils/mtdutils.c:500-506 | what is pending is padded with zeros to a block and written |
| `MtdBlocks.WriteContext.EraseBlocks` | mtdutils/mtdutils.c:498-537 | erasing behind the data leaves the data alone; it fails exactly when there are not so many blocks or the pending data does not fit |
| `MtdBlocks.WriteContext.Close` | mtdutils/mtdutils.c:539-549 | after closing, the good blocks hold the data padded to a block |
| `MtdBlocks.FindWriteStart` | mtdutils/mtdutils.c:551-564 | the first block at or after the start that was not found bad |
| `MtdBlocks.ReadContext.ReadBlock` | mtdutils/mtdutils.c:281-320 | the next block that is not bad, and nothing only when there is none |
| `MtdBlocks.ReadContext.Drain` | mtdutils/mtdutils.c:326-332 | the buffered bytes are handed out in order |
| `MtdBlocks.ReadContext.TakeWhole` | mtdutils/mtdutils.c:334-339 | whole blocks are read straight into the caller's buffer |
| `MtdBlocks.ReadContext.ReadData` | mtdutils/mtdutils.c:322-353 | it delivers the next bytes of the legible blocks, and fails exactly when there are not so many |
| `MtdBlocks.WriteAll` | mtdutils/mtdutils.c:469-549 | writing data in any pieces and closing succeeds exactly when the data fits the good blocks, which then hold it, followed by zeros to the end of a block |
| `MtdBlocks.ReadAll` | mtdutils/mtdutils.c:322-353 | reading in any lengths gives the bytes in order |
| `MtdBlocks.RoundTrip` | mtdutils/mtdutils.c:281-549 | whatever the pieces written and the lengths read, writing succeeds exactly when the data fits the good blocks, and what is read back is what was written as far as the good blocks before the first worn one reach; where given-up blocks are left erased and the data holds no 0xff, it is so exactly that far |
| `MtdBlocks.ReadBack` | mtdutils/mtdutils.c:281-353 | the same, of what is on the flash |
| `MtdBlocks.WornMisleads` | mtdutils/mtdutils.c:421-461 | a run that writes one byte behind a worn block and reads the worn block instead |
| `MtdBlocks.DataSplit` | mtdutils/mtdutils.c:281-320 | the data of a stretch of blocks is that of its two parts |
| `Yarn.StepKeeps` | pigz/yarn.c:204-364 | every step of every thread keeps the invariant that ties the list, the count and the lock to where the threads are |
| `Yarn.RunKeeps` | pigz/yarn.c:204-364 | so does every run |
| `Yarn.Safety` | pigz/yarn.c:189-364 | in every state of every interleaving the count is the number of listed threads that are done, no fail(EINVAL) is reached, a thread picked by join_all is past its last use of the lock, and no thread is joined twice |
| `Yarn.AllCounts` | pigz/yarn.c:333-363 | join_all counts every thread that was listed when it was called, and returns only with an empty list |
| `Yarn.StepLowers` | pigz/yarn.c:204-359 | while join_all is under way, every step that any thread takes brings it nearer to its end, but for waking up to a count that is still zero, which sets it back by one |
| `Yarn.JoinAllBounded` | pigz/yarn.c:204-359 | so every run inside join_all, in every interleaving, is bounded by the rank it starts with and two steps for each time it wakes up in vain, and where it stops a step is possible that is not in vain |
| `Yarn.JoinAllSteps` | pigz/yarn.c:326-370 | in numbers: twenty steps for each listed thread, two for each time join_all wakes up, and three |
| `Yarn.JoinAllProgress` | pigz/yarn.c:337-359 | while join_all is under way some step is enabled that is not in vain, and it is the return exactly when the list is empty |
| `Yarn.JoinAllReturns` | pigz/yarn.c:327-364 | from every state in join_all there is a run to its return, with the list empty and the count right |
| `Yarn.ReenterKeeps` | pigz/yarn.c:212-233 | marking a thread and moving it to the head keeps the list, and the thread is always found |
| `Yarn.RemoveKeeps` | pigz/yarn.c:304-319 | join finds its thread and takes it and its share of the count away |
| `Yarn.ReapKeeps` | pigz/yarn.c:351-358 | joining the thread picked keeps the count right |
| `Yarn.ThreadList.Reenter` | pigz/yarn.c:205-234 | on the list, the search and the move do what the step says |
| `Yarn.ThreadList.Remove` | pigz/yarn.c:304-319 | the same for the end of join |
| `Yarn.ThreadList.JoinDone` | pigz/yarn.c:337-359 | the same for a turn of join_all |
| `Yarn.ThreadList.Find` | pigz/yarn.c:215-222 | the first thread with this identity, or none |
| `Yarn.ThreadList.FindDone` | pigz/yarn.c:341-349 | the first thread that is done, or none |
| `Md5.MD5Context.constructor` | digest/md5.c:47-56 | the state for the empty message |
| `Md5.MD5Context.CountBits` | digest/md5.c:66-71 | the two words count bits modulo 2^64 |
| `Md5.CarryRight` | digest/md5.c:66-71 | the carry and the top bits of the length are accounted for, for every length of 32 bits |
| `Md5.MD5Context.TopUp` | digest/md5.c:75-90 | a block that is under way is filled and transformed, or not filled at all |
| `Md5.MD5Context.FillBlocks` | digest/md5.c:91-99 | whole blocks are transformed in order |
| `Md5.MD5Context.Update` | digest/md5.c:62-104 | the state is always the block function folded over the whole blocks of the message, with the rest in the buffer |
| `Md5.MD5Context.Final` | digest/md5.c:110-152 | the digest is the fold over the padded message |
| `Md5.PaddingFills` | digest/md5.c:115-148 | the padding fills whole blocks and is no longer than it must be |
| `Md5.PaddingIs` | digest/md5.c:118-148 | what is padded in one or two blocks is the padding of RFC 1321, section 3.1 and 3.2 |
| `Md5.BitsAsBytes` | digest/md5.c:145-146 | the two words are the eight length bytes |
| `Md5.DigestOf` | digest/md5.c:47-152 | any way of cutting up a message gives the digest of the message |
| `Md5.InitBytes` | digest/md5.c:47-56 | the words it starts from have the bytes that RFC 1321, section 3.3 lists |
| `AdbSocket.LocalSocket.Open` | minadbd/adb.c:321-335 | a new socket tells the far side and wants to read |
| `AdbSocket.LocalSocket.BecomeReady` | minadbd/sockets.c:183-189 | an OKAY enables reading |
| `AdbSocket.LocalSocket.Close` | minadbd/sockets.c:220-254 | the peer is told once; a socket with pending packets lingers to write them and no longer reads |
| `AdbSocket.LocalSocket.Enqueue` | minadbd/sockets.c:130-181 | what is written and what is queued is what was received, in order; nothing is written past queued packets, else as much as the descriptor takes; more data is welcome exactly when all was written |
| `AdbSocket.LocalSocket.Drain` | minadbd/sockets.c:268-293 | with partial writes too, the queue is written in order until it is empty or the descriptor refuses |
| `AdbSocket.LocalSocket.OnWritable` | minadbd/sockets.c:265-310 | the queue is written until it is empty or the descriptor refuses; when it is empty, and only then, the acknowledgement goes out, or a socket that was closing is gone; a descriptor that fails closes the socket |
| `AdbSocket.LocalSocket.OnReadable` | minadbd/sockets.c:313-372 | it reads until the descriptor has no more, ends, or has given 4096 bytes; what was read goes out in one WRTE packet to the peer, and reading stops; at the end of the file a CLSE follows |
| `AdbSocket.LocalSocket.OnOkay` | minadbd/adb.c:337-347 | a socket that is there wants to read; one that is closing is not found any more |
| `AdbSocket.LocalSocket.OnClose` | minadbd/adb.c:349-355 | one CLSE goes out and reading stops; a socket with pending data is kept until it is written, and one that is closing already is left as it is |
| `AdbSocket.LocalSocket.OnWrite` | minadbd/adb.c:357-370 | data is acknowledged to its sender at once exactly if all of it was written; a socket that is closing sends nothing and takes nothing in, and one that this ends sends a CLSE |
| `AdbSocket.PacedApart` | minadbd/sockets.c:359-365 | between two WRTE packets the far side was ready again |
| `AdbSocket.HandleEvent` | minadbd/sockets.c:256-380 | a writable event leaves nothing queued and the OKAY sent to the peer, unless the descriptor refused; a readable one sends what could be read; events the socket does not want do nothing |
| `AdbSocket.HandlePacket` | minadbd/adb.c:337-370 | a packet for another socket, or for one that is closing, does nothing; OKAY enables reading, CLSE closes, and WRTE is written or queued and answered from this socket to its sender |
| `AdbSocket.WritableAccounted` | minadbd/sockets.c:265-310 | the OKAY of a writable event answers a queued WRTE |
| `AdbSocket.ReadableAccounted` | minadbd/sockets.c:313-372 | the WRTE of a readable event uses up the leave to read |
| `AdbSocket.PacketAccounted` | minadbd/adb.c:337-370 | a packet gives leave to send one at most |
| `AdbSocket.TrailAccounted` | minadbd/sockets.c:130-465 | over any sequence of events that do what they should, the WRTE packets sent are no more than the OKAY packets that came, and one if reading was enabled; the OKAY packets sent no more than the WRTE packets that came; CLSE is sent once at most; the payloads sent are the bytes read from the descriptor, and the payloads that came, in order, are the bytes written to it and those still queued |
| `AdbSocket.Run` | minadbd/sockets.c:130-465 | over any sequence of events each event does to the socket what it should, as AdbSocket.After says, and nothing else, and the packets are accounted for |
| `DedupeText.DecToOct` | dedupe/dedupe.c:253-264 | the loop reads the decimal digits of a number as octal ones |
| `DedupeText.ModeRoundTrip` | dedupe/dedupe.c:99-100 | a mode printed in octal and read through atoi and dec_to_oct is the mode |
| `DedupeText.Tokenize` | dedupe/dedupe.c:237-251 | the text before the first separator and the text after it, or NULL when there is none |
| `DedupeText.LineRoundTrip` | dedupe/dedupe.c:99-160 | a line whose strings hold no tab and no newline is read back as the entry it was written for if and only if its fields fit the buffers they are read into; else the reader overruns one |
| `DedupeText.MachineFits` | dedupe/dedupe.c:421-469 | with numbers of the width of a struct stat they fit if and only if the name, the key and the target of a link are short enough, the target below 41 characters |
| `DedupeText.LongLinkBreaks` | dedupe/dedupe.c:467-469 | a link with a target of 41 characters is written and cannot be read |
| `DedupeText.LineIsOne` | dedupe/dedupe.c:99-160 | what is written for an entry is one line |
| `DedupeLines.FileLine` | dedupe/dedupe.c:430-457 | a line of version 1 or 2 for a file is read as key, size, mode, user, group, times and name, each from its own field, if and only if they fit 4, 8, 32, 32, 32, 4096, 128 and 32 bytes with their NUL |
| `DedupeLines.LinkLine` | dedupe/dedupe.c:466-474 | the same for a link, with 41 bytes for its target |
| `DedupeLines.DirLine` | dedupe/dedupe.c:476-482 | the same for a directory |
| `DedupeLines.OtherLine` | dedupe/dedupe.c:483-487 | a line of any other type is not known |
| `DedupeLines.EarlyEnd` | dedupe/dedupe.c:430-469 | a line with too few fields is read through NULL |
| `DedupeLines.FileUses` | dedupe/dedupe.c:553-579 | to the collection the line of a file names its key |
| `DedupeLines.OtherPasses` | dedupe/dedupe.c:553-571 | and the other lines name nothing |
| `DedupeLines.AnnouncedIs` | dedupe/dedupe.c:408-410 | "dedupe", any white space and a number with or without a sign announce that version |
| `DedupeLines.NothingAnnounced` | dedupe/dedupe.c:408-412 | any other first line announces none |
| `DedupeLines.LongLine` | dedupe/dedupe.c:418 | a line is read in pieces of 4095 characters |
| `DedupeLines.KeyPlace` | dedupe/dedupe.c:126-140 | the blob of a hash abcdefg goes to abc/defg |
| `DedupeStore.CopyBlob` | dedupe/dedupe.c:152-158 | a blob appears complete or not at all: in every state each blob in place has a content with the hash its key stands for, and on success this one has the content copied |
| `DedupeStore.StoreFile` | dedupe/dedupe.c:103-162 | after storing, the blob the line names is in place: the content of the file, or the blob that was there when it has the same size |
| `DedupeStore.StoreNode` | dedupe/dedupe.c:217-235 | the lines written are those of the node, and all their blobs are in place |
| `DedupeStore.StoreDir` | dedupe/dedupe.c:164-202 | the same for a directory, in the order it is read and without the excluded paths |
| `DedupeStore.KeysDiffer` | dedupe/dedupe.c:117-138 | different hashes have different places |
| `Dedupe.LinesBack` | dedupe/dedupe.c:418-420 | a text made of whole lines is read line by line |
| `Dedupe.ManifestRoundTrip` | dedupe/dedupe.c:352-440 | what create writes is read back entry by entry |
| `Dedupe.Create` | dedupe/dedupe.c:352-384 | the manifest lists the tree, and every blob it names is in place |
| `Dedupe.Extract` | dedupe/dedupe.c:385-501 | a manifest of a newer version restores nothing; success means every entry has been restored; with its blobs in place a manifest that can be read is restored |
| `Dedupe.RestoreHas` | dedupe/dedupe.c:448-490 | with distinct names every entry of the manifest is there as it says |
| `DedupeStore.SomeHashIsGood` | dedupe/dedupe.c:117-138 | what is asked of the hash can be met |
| `DedupeTree.DirDistinct` | dedupe/dedupe.c:164-202 | the entries of a tree have distinct names |
| `DedupeTree.DirListed` | dedupe/dedupe.c:164-235 | they are exactly the entries of its nodes that are not excluded |
| `DedupeTree.TreeRestores` | dedupe/dedupe.c:385-501 | restoring the entries of a tree gives every file, directory and link of it that was not excluded, with its mode and owner and bytes of its hash, and nothing else; the bytes are its own if no two of the contents that occur share a hash |
| `DedupeGc.ReadUsed` | dedupe/dedupe.c:523-582 | the keys collected are those on the lines of the manifests up to the first newer one, or none if a line sticks |
| `DedupeGc.EntriesNamed` | dedupe/dedupe.c:543-580 | a manifest that can be extracted names the blobs of its entries |
| `DedupeGc.UsedExactly` | dedupe/dedupe.c:523-582 | a blob counts as used if and only if some manifest names it with no newer manifest at or before it |
| `DedupeGc.StrcmpOrders` | dedupe/dedupe.c:586-604 | the order of strcmp is one that the sort and the walk may use |
| `DedupeGc.SortAscends` | dedupe/dedupe.c:586-587 | the sorted lists ascend |
| `DedupeGc.WalkDecides` | dedupe/dedupe.c:589-604 | where the walk over the two sorted lists stops tells whether a file is used |
| `DedupeGc.RemoveUnused` | dedupe/dedupe.c:589-604 | no used file goes in any state on the way; where nothing fails, every unused one does |
| `DedupeGc.Collect` | dedupe/dedupe.c:502-611 | a blob that some manifest names with no newer one at or before it stays, unchanged, in every state; where nothing fails, exactly these are left; if a line of a manifest read sticks, nothing is removed |
| `DedupeGc.NewerManifestLoses` | dedupe/dedupe.c:537-542 | with a newer manifest in front every blob goes, whatever the manifest behind it names; listed the other way round exactly the named ones stay |
| `DedupeGc.LoseOne` | dedupe/dedupe.c:537-542 | a disk and two manifests with which a blob is lost that one of them names |
| `DedupeCut.CutLine` | dedupe/dedupe.c:543-580 | the beginning of a line makes the collection stick if and only if it has fewer than seven tabs, or nine for a file; else it names the blob that the whole line names |
| `DedupeCut.CutReads` | dedupe/dedupe.c:531-580 | a manifest cut off after any number of characters is never taken for a newer one; collecting sticks on it exactly where the line it ends in is too short, and else reads the blobs of its first entries |
| `DedupeRuns.BackupOld` | dedupe/dedupe.c:531-537 | nothing that create leaves is taken for a newer manifest, whatever the names in it |
| `DedupeRuns.BackupReads` | dedupe/dedupe.c:531-580 | a whole manifest whose lines can be read back can be extracted and names the blobs of its entries; one that is cut off sticks or names those of its first entries |
| `DedupeRuns.CreateRun` | dedupe/dedupe.c:352-384 | a create cut off in any state leaves every blob right, the blobs of every manifest that can be read back in place, and any part of its own manifest; one that works adds its manifest |
| `DedupeRuns.CollectRun` | dedupe/dedupe.c:502-611 | a collection cut off in any state leaves the blobs of every manifest that can be read back in place, whatever cut-off or unreadable manifests it is handed; one that works leaves exactly the blobs the manifests name; one that sticks leaves everything |
| `DedupeRuns.Runs` | dedupe/dedupe.c:345-616 | over any sequence of create and gc runs, cut off or not, with manifests dropped in between and cut-off ones left on the disk, each blob in place has a content with the hash its key stands for, the manifest of each create that worked is there unless one was dropped since, every whole manifest left can be extracted if its lines can be read back, whatever the others hold, and after a collection that worked and did not stick no blob is left that no manifest names |
| `DedupeRuns.ExtractKept` | dedupe/dedupe.c:385-501 | extracting a manifest that is still there gives its tree back; where nothing fails, it succeeds |
| `DedupeRuns.BackupComesBack` | dedupe/dedupe.c:345-616 | after any sequence of runs the tree of a create that worked, and after which no manifest was dropped, comes back |

## Left out

- SuffixSplit.PartitionFront: the ends jj+j and kk+k of two parts are kept as absolute positions, which changes no comparison and no access.
- Bspatch.FillBuffer: a negative size and a stream that ends early are failures; the program would overrun its buffer or wait for ever. Its size is an int, so it does not handle a part of 2^31 bytes or more, and the loop that adds the old data has an int index with the same limit; the model has neither.
- Bspatch.ApplyBSDiffPatchMem: stands for the program where each triple asks for less than 2^31 bytes of either kind; a patch too short for its header, and a window outside the file, count as corrupt or empty; the program reads out of bounds.
- Bsdiff.Bsdiff: data is smaller than 2^63 bytes, the width of off_t; that the patch is small is not stated, only how each step is chosen and that the steps rebuild the data.
- ImageChunks.ReadImage: reading that would loop for ever or leave its buffer ends with an outcome that says which (NoProgress, BadStream, Overrun).
- ImgDiff.DiffImages: image mode only, for images below 2^31 bytes; zip mode, with its matching of entries by name, is left out.
- ImgPatch.ApplyImagePatch: source windows outside the source are cut to it, and an expanded length that does not fit and a negative length of a raw record are failures; the program does not check them.
- FileSystem.FileSystem.FileSink: writes become visible in order and a rename at once; caches that lose unsynced writes are not modelled, nor are modes, owners and times.
- FreeCache.EliminateOpenFiles: which files are open is left open; no process holds one where nothing fails.
- ApplyPatch.ApplyPatch: the free space seen before the first attempt is a parameter, and what becomes of the original after a first attempt that fails is left open, but for one of the two files being safe. The target is a regular file. For a partition target the program rewrites the saved source before it writes the partition, and the claim does not hold.
- ApplyPatch.InterruptedRuns: the source is not a partition, because a partition cannot be deleted to make room and the program then gives up.
- ApplyPatch.FindMatchingPatch: parsing of hash strings is left out; a hash that cannot be parsed is None and matches nothing.
- LoadPartition.LoadPartitionContents: the MTD case, on a device that opens; the name is already taken apart into sizes and hashes, and the order of pairs with equal sizes is whatever qsort leaves.
- WriteToPartition is left out, with its EMMC branch.
- Retouch.RetouchMaskData: the last entry may read up to seven bytes beyond the list, as in the program, which never leaves the file because the two records follow.
- RetouchList.WrittenRetouched: the program that writes lists is not part of this model; every choice of forms reads back (RetouchList.ListReads).
- Retouch.RetouchTwice: the list must keep clear of the words it names. This is one way only: an entry that overlaps the list may still leave it readable, which nothing short of retouching twice tells; the same goes for overlapping words in Retouch.RetouchInferred.
- HashTable.HashTable.constructor: takes the size already rounded up; `HashTable.RoundUpIsLeast` is about the rounding in 32 bits, and masking with the size less one is written as the remainder.
- HashTable.HashTable.Lookup: allocation does not fail, and one comparison, an equivalence, serves all calls on a table; the free function, iteration and the probe statistics are left out.
- ZipIndex.ParseZipArchive: an archive too short for its last record is refused, where the program reads out of bounds; sums of offsets do not wrap.
- ZipFormat.ArchiveRoundTrip: the archive is below 2^32 bytes and holds its directory behind its files, as zip writers leave it; no other end record's mark follows, which a comment could hold.
- ZipIndex.SelectEntries: which entries are extracted and in what order; writing them, with the target paths, links, modes and times, is left out, and so is the check of the target directory.
- Verifier.CheckStructure: the RSA check itself is left out; the signature's size of 256 bytes is a constant, as mincrypt/rsa.h is not part of this model.
- MtdBlocks.WriteContext.WriteBlock: offsets count blocks; the device answers the bad-block query, and a good block succeeds within two tries. Blocks that do not are a kind of their own.
- MtdBlocks.RoundTrip: behind a worn block reading is wrong for data without the byte 0xff on a device that leaves given-up blocks erased (`tidy`). On any other device what such a block holds is open, and data that happens to equal it reads back right.
- MtdBlocks.ReadContext.ReadBlock: a good block reads without errors; skipping blocks with uncorrectable ECC errors is left out.
- MtdBlocks.WriteContext.EraseBlocks: what erased blocks hold is left open.
- Yarn.Safety: one controlling thread launches and joins, as pigz/yarn.h asks for joining all; a thread that cannot be created, the reuse of thread ids, and the other locks are left out.
- Yarn.JoinAllBounded: waking up in vain, which the condition variable allows at any time, is counted and not bounded.
- Md5.DigestOf: pieces are below 2^32 bytes, the width of the length; the block function and the byte order of the words it reads are a parameter.
- AdbSocket.Run: one socket on a connected transport, reached by the packets that name it; the event loop is a set of interests, a forced end of file is an end of file, and the lists of sockets and the smart sockets are left out.
- DedupeText.LineRoundTrip: names, keys and link targets hold no tab and no newline. Numbers are not negative (a user or group number of 2^31 or more is printed as a negative one), and a number that starts with a sign or white space counts as zero.
- DedupeStore.StoreFile: directories for blobs can be made; files are below 2^31 bytes, the width of the sizes compared; the file does not change while it is read, and only one run is at work at a time.
- Dedupe.Extract: times are read but not restored, and the order in which modes and owners are set is left out. A line on which the program reads through NULL, uses a field without an end, or overruns a buffer ends the run. The first line of an empty file, which the program does not set, counts as empty.
- DedupeGc.ReadUsed: the manifests can be opened; the crash or overrun on a line that sticks ends the collection before anything is removed.
- Launching of subprocesses, messages, freeing of memory and failing allocations are left out everywhere.
- The bootloader-message flow of recovery, mounting, the user interface, the script language, the ini parser and the font decoder are left out.
