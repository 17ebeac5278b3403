# Verified model of a Simple Cache library and the Chromium code it mirrors

The repository holds a Java library that parses, edits and rewrites Chromium Simple Cache files, and the
Chromium sources that define the format and run the cache. This project models both in Dafny and proves how
they behave and that they fit together.

- **Sparse streams** (`SparseLayout`, `SparseStore`, `SparseEntry`): an ordered index of ranges over an
  append-only file refines a partial map from offset to byte; the file alone always suffices to rebuild the index.
- **Dense entry files** (`DenseEntry`, `EntryFormat`, `EntryOpen`, `EntrySessions`, `EntryMeaning`): writes, close and
  open, with or without a prefetch buffer and over any number of sessions, keep both streams; no open returns a stream 0
  that does not have its stored checksum.
- **Cache index** (`IndexModel`, `SimpleIndex`, `EvictionRuns`): the running size is the sum in every state, eviction
  is sufficient, minimal and in order and ends exactly once in any interleaving, start-up merging loses nothing, and
  mass dooming reports once.
- **Code cache** (`CodeCacheModel`, `CodeCacheProof`, `CodeCacheProgress`, `CodeCacheMeaning`, `GeneratedCodeCache`): per-key
  queues of asynchronous operations answer every fetch once, with the last write requested before it, also after restarts.
- **Java side** (`JavaEntry`, `IndexFile`, `IndexLoad`, `IndexMeaning`, `JavaIndex`, `HttpMetadata`, `HttpPatch`,
  `HttpMeaning`, `Library`, `LibraryMeaning`): Java and Chromium read the same files alike, the header patch preserves
  meaning, and restoring after a modification gives the new body.

The modules named `...Meaning` say what the definitions of the others come to in plain numbers, bytes and positions.

`ByteSeqs` and `Sums` hold shared definitions. Hash functions and compression are parameters of the claims:
nothing is assumed of CRC-32, SHA-1 and the key hash, SHA-256 is assumed collision-free only among the large
data written in a code-cache run, and compression is assumed to be undone by decompression. A Java or C++
exception or error return is a `None` result or a result case of its own.

Four places where the code and what is said about it differ; the model follows the code:

- The score of an entry is said not to overflow. It can: `IndexModel.ProductFits` gives the exact bound and
  `IndexModel.WrappedScoreMisorders` an example.
- Sizes just below 2^64 are accepted as empty: `IndexModel.SizeAccepted`.
- The index loader checks for at most 1,000,000 entries, but its file size limit admits only 999,998:
  `IndexLoad.DiskLimit` and `JavaIndex.OneTooMany`.
- Close estimates the trailer that the next open should prefetch, as a signed 32-bit number. For the largest streams 0
  it is negative, and the next open ignores it: `EntryOpen.HintSurvives` and `EntryOpen.LargestHintLost`.

Members with `Parse`, `Serialize` and similar names are proved against definitions named `...Spec`; the lemmas
in the table say what those definitions promise.

## Model

| member | source | states |
|---|---|---|
| `SparseLayout.RewriteKeepsLayout` | reference/chromium/simple_synchronous_entry.cc:2102-2141 | overwriting inside one range, with the checksum set for a full overwrite and cleared otherwise, keeps ranges sorted, non-empty and disjoint, records non-overlapping in the file, and every checksum right on disk and in memory |
| `SparseLayout.RewriteContents` | reference/chromium/simple_synchronous_entry.cc:2102-2141 | the same rewrite changes the stored partial map exactly on the interval written |
| `SparseLayout.AppendKeepsLayout` | reference/chromium/simple_synchronous_entry.cc:2143-2181 | appending a record for a range that meets no other keeps the layout |
| `SparseLayout.AppendContents` | reference/chromium/simple_synchronous_entry.cc:2143-2181 | an append adds exactly its bytes to the stored partial map |
| `SparseLayout.RangeHeaderFields` | reference/chromium/simple_entry_format.h:87-101 | each field of a range header reads back as it was written |
| `SparseLayout.TotalIsStoredCount` | reference/chromium/simple_synchronous_entry.cc:981-998 | the total length of all ranges is the number of bytes stored |
| `SparseLayout.SortedUnique` | reference/chromium/simple_synchronous_entry.cc:2055-2060 | a sorted range list is determined by its elements, so file order is irrelevant to what a scan rebuilds |
| `SparseStore.RunLengthUnique` | reference/chromium/simple_synchronous_entry.cc:798-877 | the contiguous run length is the only number of stored positions followed by a hole or the cap |
| `SparseStore.ScanStep` | reference/chromium/simple_synchronous_entry.cc:2003-2071 | the scan reads one stored record back as exactly the range it was written for |
| `SparseStore.ScanRebuilds` | reference/chromium/simple_synchronous_entry.cc:2003-2071 | scanning any laid-out file rebuilds the same range map (offset, length, checksum, file offset), the tail offset and the total size |
| `SparseStore.ScanSparseFile` | reference/chromium/simple_synchronous_entry.cc:2003-2071 | the scan loop ends on every input and computes what the record-by-record definition says, including rejection and the point where its 64-bit offset would wrap |
| `SparseStore.ScanRejects` | reference/chromium/simple_synchronous_entry.cc:2003-2071 | a header that is cut off, has another magic number or describes a range beyond 64 bits rejects the whole file; the end of the file ends the scan |
| `SparseStore.EmplaceKeepsFirst` | reference/chromium/simple_synchronous_entry.cc:2055-2060 | a sparse offset that was seen before keeps its first range |
| `SparseStore.WriteSpecMeans` | reference/chromium/simple_synchronous_entry.cc:909-920 | byte by byte: the buffer inside its interval, and elsewhere what was there if old size and buffer are within the limit, nothing if they exceed it |
| `SparseEntry.SparseSynchronousEntry.constructor` | reference/chromium/simple_synchronous_entry.cc:1234-1256 | a new entry stores nothing |
| `SparseEntry.SparseSynchronousEntry.CreateSparseFile` | reference/chromium/simple_synchronous_entry.cc:1979-2001 | a new sparse file has its header and key and stores nothing |
| `SparseEntry.SparseSynchronousEntry.TruncateSparseFile` | reference/chromium/simple_synchronous_entry.cc:1964-1977 | truncation keeps header and key and stores nothing |
| `SparseEntry.SparseSynchronousEntry.WriteSparseRange` | reference/chromium/simple_synchronous_entry.cc:2102-2141 | writes into one range; only that range's checksum and that interval of the partial map change |
| `SparseEntry.SparseSynchronousEntry.AppendSparseRange` | reference/chromium/simple_synchronous_entry.cc:2143-2181 | adds one range at its place in the order and one record at the end of the file |
| `SparseEntry.SparseSynchronousEntry.WriteOverlap` | reference/chromium/simple_synchronous_entry.cc:922-949 | the part falling into the overlapping predecessor is written, and nothing before the rest of the buffer reaches into it |
| `SparseEntry.SparseSynchronousEntry.FillGap` | reference/chromium/simple_synchronous_entry.cc:951-966 | the gap before a range becomes a new range that ends where that range starts |
| `SparseEntry.SparseSynchronousEntry.OverwriteRange` | reference/chromium/simple_synchronous_entry.cc:968-978 | a range met at its start is overwritten as far as the buffer goes; no range changes its place or length |
| `SparseEntry.SparseSynchronousEntry.WriteThrough` | reference/chromium/simple_synchronous_entry.cc:951-979 | one round advances the buffer and leaves fewer ranges to meet |
| `SparseEntry.SparseSynchronousEntry.WriteTail` | reference/chromium/simple_synchronous_entry.cc:981-991 | what is left after the last range is appended as one range |
| `SparseEntry.SparseSynchronousEntry.WritePieces` | reference/chromium/simple_synchronous_entry.cc:922-993 | the partial map becomes the old one overwritten with exactly the buffer; the bytes counted are those by which the total grew |
| `SparseEntry.SparseSynchronousEntry.MakeRoom` | reference/chromium/simple_synchronous_entry.cc:913-920 | the file is emptied exactly when the pessimistic estimate exceeds the limit |
| `SparseEntry.SparseSynchronousEntry.WriteSparseData` | reference/chromium/simple_synchronous_entry.cc:879-1003 | each position holds the buffer's byte inside its interval; elsewhere what was there, if old size plus buffer is within the limit, and nothing if not; the recorded size is at most the larger of limit and buffer length; it fails exactly when old size plus buffer reaches 2^64 |
| `SparseEntry.SparseSynchronousEntry.ReadSparseRange` | reference/chromium/simple_synchronous_entry.cc:2073-2100 | returns the stored bytes; its checksum comparison never fails |
| `SparseEntry.SparseSynchronousEntry.ReadChecked` | reference/chromium/simple_synchronous_entry.cc:2073-2100 | on any file, reading a whole range fails exactly when a checksum is stored and the bytes do not have it |
| `SparseEntry.SparseSynchronousEntry.ReadSparseData` | reference/chromium/simple_synchronous_entry.cc:798-877 | never fails, and returns the stored bytes of the longest contiguous run from the offset, capped by the buffer |
| `SparseEntry.SparseSynchronousEntry.GetAvailableRange` | reference/chromium/simple_synchronous_entry.cc:1005-1044 | returns the first stored position of the window and the run from it clipped to the window, or the offset and 0 if nothing is stored there |
| `SparseEntry.SparseSynchronousEntry.FirstInWindow` | reference/chromium/simple_synchronous_entry.cc:1011-1028 | where stored data starts in the window and how much the overlapping predecessor contributes |
| `SparseEntry.SparseSynchronousEntry.ExtendRun` | reference/chromium/simple_synchronous_entry.cc:1030-1041 | adjoining ranges are followed up to the first hole or the end of the window |
| `SparseEntry.SparseSynchronousEntry.ReadAvailableRange` | reference/chromium/simple_synchronous_entry.cc:1005-1044 | a read from the position the query reports to the end of the window returns exactly the reported length |
| `SparseEntry.SparseSynchronousEntry.ReopenSparseFile` | reference/chromium/simple_synchronous_entry.cc:1908-1931 | closing and reopening changes neither ranges, tail, size nor file |
| `SparseEntry.SparseSynchronousEntry.SizeIsStoredCount` | reference/chromium/simple_synchronous_entry.cc:981-998 | the recorded size is the number of bytes stored |
| `SparseEntry.SparseSynchronousEntry.RunAll` | reference/chromium/simple_synchronous_entry.cc:879-1003 | over any run of writes and reopenings the entry stores what the same run stores in a partial map, and the recorded size is its cardinality |
| `SparseEntry.StaysUntilOverwritten` | reference/chromium/simple_synchronous_entry.cc:879-1003 | in a run, a byte written stays until it is written over, as long as no later write exceeds its limit |
| `DenseEntry.WriteIsStreamWrite` | reference/chromium/simple_synchronous_entry.cc:682-796 | editing the file with zero-filling, extension and truncation edits stream 1 as a byte sequence and leaves header and key alone |
| `DenseEntry.StreamByte` | reference/chromium/simple_synchronous_entry.cc:682-796 | each byte of a written stream comes from the buffer, from before, or is zero in a gap |
| `DenseEntry.StreamLength` | reference/chromium/simple_synchronous_entry.cc:752-781 | a truncating write ends the stream after it; any other only ever makes it longer |
| `DenseEntry.StaysInStream` | reference/chromium/simple_synchronous_entry.cc:682-796 | in a run, a byte written stays until it is written over or cut off |
| `DenseEntry.CloseAssembles` | reference/chromium/simple_synchronous_entry.cc:1118-1209 | the records of both streams, written in either order, leave every piece of the file in its place and nothing after it |
| `DenseEntry.DenseSynchronousEntry.constructor` | reference/chromium/simple_synchronous_entry.cc:1592-1617 | a new file has header and key and an empty stream 1 |
| `DenseEntry.DenseSynchronousEntry.Reopened` | reference/chromium/simple_synchronous_entry.cc:1501-1590 | an opened file continues as the entry that was closed |
| `DenseEntry.DenseSynchronousEntry.WriteData` | reference/chromium/simple_synchronous_entry.cc:682-796 | stream 1 afterwards is the abstract write applied to stream 1 before |
| `DenseEntry.DenseSynchronousEntry.EditFile` | reference/chromium/simple_synchronous_entry.cc:713-781 | the file is extended, written and cut as specified |
| `DenseEntry.DenseSynchronousEntry.Close` | reference/chromium/simple_synchronous_entry.cc:1118-1209 | the file is the result of laying down the records in turn; the trailer estimate covers stream 0, digest and record as a signed 32-bit number, and is -1 without stream 0's record |
| `DenseEntry.DenseSynchronousEntry.WriteRecord` | reference/chromium/simple_synchronous_entry.cc:1132-1209 | one record is laid down at its offset, the file length being set before the last one |
| `DenseEntry.DenseSynchronousEntry.WriteAll` | reference/chromium/simple_synchronous_entry.cc:682-796 | any run of stream 1 writes leaves the stream that run leaves in a plain sequence |
| `EntryFormat.EofRoundTrip` | reference/chromium/simple_entry_format.h:67-85 | an end-of-stream record reads back as it was written |
| `EntryFormat.FileHeaderFields` | reference/chromium/simple_entry_format.h:53-64 | each field of the file header reads back as it was written |
| `EntryFormat.HoldsIsAssemble` | src/com/cfks/simplecache/SimpleCacheEntry.java:10-21 | having every piece in its place is the same as being their concatenation |
| `EntryOpen.TailRecovers` | reference/chromium/simple_synchronous_entry.cc:1638-1795 | the tail checks recover key, both sizes and stream 0 if and only if stream 0 plus the digest is within `int` |
| `EntryOpen.HeaderRecovers` | reference/chromium/simple_synchronous_entry.cc:1429-1499 | the header check gives back the key |
| `EntryOpen.OpenRecovers` | reference/chromium/simple_synchronous_entry.cc:1501-1590 | any well-formed file opens, with the key known or not, if and only if stream 0 plus the digest is within `int` |
| `EntryOpen.Stream1Recovers` | reference/chromium/simple_synchronous_entry.cc:1749-1773 | the stream 1 record and checksum checks of a prefetched open pass |
| `EntryOpen.CloseThenOpen` | reference/chromium/simple_synchronous_entry.cc:1118-1209 | after a close with a record for each stream, opening recovers both sizes and contents, if and only if stream 0 is small enough; the stream 1 checksum may be absent |
| `EntryOpen.ClosedSize` | reference/chromium/simple_synchronous_entry.cc:1175-1176 | the length of a closed file and its last record |
| `EntryOpen.PrefetchData.constructor` | reference/chromium/simple_synchronous_entry.cc:115-118 | nothing is prefetched or requested at first |
| `EntryOpen.PrefetchData.HasData` | reference/chromium/simple_synchronous_entry.cc:123-130 | true exactly when the buffer covers the range; the earliest request is tracked |
| `EntryOpen.PrefetchData.PrefetchFromFile` | reference/chromium/simple_synchronous_entry.cc:153-169 | the buffer holds that part of the file, or nothing changes |
| `EntryOpen.PrefetchData.Read` | reference/chromium/simple_synchronous_entry.cc:1797-1818 | whether from buffer or file, the bytes are those of the file, and one file read happens exactly when the buffer does not cover a non-empty range |
| `EntryOpen.TruncationDiffers` | reference/chromium/simple_synchronous_entry.cc:171-178 | when cutting a trailer length to 32 bits differs from a saturating 32-bit minimum: from 2^32 on, except just below a multiple of it |
| `EntryOpen.TrailerFits` | reference/chromium/simple_synchronous_entry.cc:1743-1747 | no open gets that far: whenever the tail checks pass, the trailer is below 2^32 and the hint is exact |
| `EntryOpen.CheckHeaderAndKey` | reference/chromium/simple_synchronous_entry.cc:1429-1499 | accepts exactly the right magic, version, length and key hash, and the given key if there is one, always reading the file, twice only for an unknown key that is too long |
| `EntryOpen.GetEofRecordData` | reference/chromium/simple_synchronous_entry.cc:1820-1842 | reads and checks the record at an offset |
| `EntryOpen.PreReadStreamPayload` | reference/chromium/simple_synchronous_entry.cc:1075-1116 | reads a payload; fails exactly when it is too long or bit 0 of the flags is set and the checksum differs |
| `EntryOpen.Prefetch` | reference/chromium/simple_synchronous_entry.cc:1661-1699 | prefetches the whole file, the trailer, or nothing; a hint counts only if positive as a signed number |
| `EntryOpen.HintSurvives` | reference/chromium/simple_synchronous_entry.cc:264-277 | the trailer estimate comes back as a usable hint if and only if it is within `int`; otherwise it is negative and the hint is ignored |
| `EntryOpen.LargestHintLost` | reference/chromium/simple_synchronous_entry.cc:1175-1176 | for the largest stream 0 that can be opened the estimate is negative and the hint is lost |
| `EntryOpen.ReadStream0` | reference/chromium/simple_synchronous_entry.cc:1701-1747 | record, sizes and stream 0 with the digest after it, through the prefetch buffer, decide what the tail checks decide |
| `EntryOpen.ReadStream1` | reference/chromium/simple_synchronous_entry.cc:1749-1773 | stream 1 is checked exactly when the buffer reaches back to it, without any file read |
| `EntryOpen.ReadAndValidateStreams` | reference/chromium/simple_synchronous_entry.cc:1638-1795 | with any prefetch setting the outcome is that of the plain tail checks, except that a visible stream 1 must also be right |
| `EntryOpen.TailDecided` | reference/chromium/simple_synchronous_entry.cc:1701-1747 | stream 0 and the digest after it, read in one piece, decide what the tail checks decide |
| `EntryOpen.OpenEntry` | reference/chromium/simple_synchronous_entry.cc:1501-1590 | an open that succeeds with any prefetch setting succeeds with none, with the same sizes and stream 0; if bit 0 of the last record's flags is set, stream 0 has the checksum stored there; every read besides the prefetch is counted, header reads included; the computed trailer is exact |
| `EntryOpen.NoFurtherRead` | reference/chromium/simple_synchronous_entry.cc:1501-1590 | only the prefetch is read exactly when the key is known, its digest is in the file and the prefetch reaches back to stream 0 |
| `EntryOpen.CreateWriteCloseOpen` | reference/chromium/simple_synchronous_entry.cc:1501-1590 | create, write, close, open: opens with both streams as written, if and only if stream 0 is small enough and so is stream 1 where the prefetched part reaches it; the estimate is the trailer the next open computes if and only if it is within `int`, and then an open given it reads nothing besides the prefetch; beyond, the open behaves as without a hint |
| `DenseEntry.CloseZeroOnly` | reference/chromium/simple_synchronous_entry.cc:1118-1209 | with only stream 0's record, the file has the new stream 0 and all other pieces as before |
| `EntryOpen.ClosedGood` | reference/chromium/simple_synchronous_entry.cc:1146-1208 | the records a close writes are ones an open accepts, when the checksums given are right or absent |
| `EntrySessions.ClosedOpens` | reference/chromium/simple_synchronous_entry.cc:1501-1590 | a closed file opens with its key and both streams, if and only if stream 0 is small enough |
| `EntrySessions.ClosesAs` | reference/chromium/simple_synchronous_entry.cc:1118-1209 | closing leaves a closed file with the new streams, whether both records, stream 0's alone or none had to be written |
| `EntrySessions.Create` | reference/chromium/simple_synchronous_entry.cc:1592-1617 | a first session leaves a closed file with its streams |
| `EntrySessions.Edit` | reference/chromium/simple_synchronous_entry.cc:682-796 | open, write, close: fails to open exactly when a stream has outgrown the limits, and else leaves a closed file with the new streams |
| `EntrySessions.RunSessions` | reference/chromium/simple_synchronous_entry.cc:1118-1209 | over any number of sessions with any prefetch settings, both streams are what a plain run of the same changes gives; sessions that do not change stream 0 keep it |
| `EntrySessions.LastStream0` | reference/chromium/simple_synchronous_entry.cc:1118-1209 | stream 0 after any sessions is that of the last one that changed it |
| `EntrySessions.Stream1Stays` | reference/chromium/simple_synchronous_entry.cc:682-796 | a byte of stream 1 written in any session stays until it is written over or cut off |
| `EntrySessions.OpensMeans` | reference/chromium/simple_synchronous_entry.cc:1638-1795 | the limits in numbers: 2^31 - 33 bytes of stream 0, 2^31 - 1 of stream 1 where it is looked at |
| `EntryOpen.ChecksumCompared` | reference/chromium/simple_synchronous_entry.cc:1106-1112 | whenever an open succeeds and bit 0 of the 4 bytes 16 before the end is set, the 4 bytes 12 before the end are the CRC-32 of the stream 0 it returns |
| `EntryMeaning.RecordFields` | reference/chromium/simple_entry_format.h:67-85 | where the fields of an end-of-stream record are, at any place of a file |
| `EntryMeaning.RecordMeans` | reference/chromium/simple_synchronous_entry.cc:1820-1842 | a record is accepted exactly when it is whole, its magic number is right and its size is within `int` |
| `EntryMeaning.HeaderMeans` | reference/chromium/simple_synchronous_entry.cc:1429-1499 | the header names a key exactly when magic number, version 5, length and key hash at their places say so |
| `EntryMeaning.TailMeans` | reference/chromium/simple_synchronous_entry.cc:1701-1795 | the tail checks pass exactly when the last 24 bytes are a record, the sizes fit, the checksum is right if bit 0 of the flags is set and the digest if bit 1 is; then sizes and stream 0 are those |
| `EntryMeaning.OpenMeans` | reference/chromium/simple_synchronous_entry.cc:1501-1590 | an unknown key comes from the header; a known one must be there too exactly when bit 1 of the flags is not set |
| `EntryMeaning.Stream1Means` | reference/chromium/simple_synchronous_entry.cc:1749-1773 | where stream 1 is looked at, its record must be whole and right, and its checksum too if bit 0 of its flags is set |
| `EntryMeaning.LookedAtMeans` | reference/chromium/simple_synchronous_entry.cc:1749-1773 | stream 1 is looked at exactly when bit 1 of the flags is set and the prefetched part reaches back to it; then an open succeeds only if it passes |
| `EntryMeaning.PrefetchMeans` | reference/chromium/simple_synchronous_entry.cc:1661-1699 | how many bytes of the end of the file are prefetched, for each hint and setting |
| `EntryMeaning.CorruptionStopsOpen` | reference/chromium/simple_synchronous_entry.cc:1106-1112 | a file with flags 3 whose stream 0 does not have the stored checksum does not open, whatever the key |
| `EntryMeaning.ClosedBytes` | reference/chromium/simple_synchronous_entry.cc:1118-1209 | every field of a closed file by position: header, key, stream 1, its record with flags 1 or 0, stream 0, digest, and its record with flags 3 |
| `CodeCacheModel.EncodeDecodes` | reference/chromium/generated_code_cache.cc:271-287 | what a write stores passes the header check and decodes to its time, size and payload in each of the three layouts |
| `CodeCacheModel.HexInjective` | reference/chromium/generated_code_cache.cc:564-564 | different checksums give different keys |
| `CodeCacheModel.ShaKeyDecides` | reference/chromium/generated_code_cache.cc:564-564 | checksum keys agree exactly when the SHA-256 values do |
| `CodeCacheMeaning.HexMeans` | reference/chromium/generated_code_cache.cc:564-564 | two upper-case hexadecimal digits per byte, the high half first |
| `CodeCacheMeaning.LayoutMeans` | reference/chromium/generated_code_cache.cc:523-579 | where time, size and data are stored up to 4096 bytes, up to 16384, and beyond, with deduplication or without |
| `CodeCacheMeaning.RequestsCanHappen` | reference/chromium/generated_code_cache.cc:508-625 | every fetch and delete can happen in any state, and every write without a SHA-256 collision |
| `CodeCacheMeaning.CollisionMeans` | reference/chromium/generated_code_cache.cc:540-579 | a collision is between two different pieces of data of more than 16384 bytes, written with deduplication on |
| `CodeCacheMeaning.WritesCompleteInAnyOrder` | reference/chromium/generated_code_cache.cc:785-829 | either stream of a write may complete first |
| `CodeCacheMeaning.HistoryOfRun` | reference/chromium/generated_code_cache.cc:508-625 | the history that answers are judged by is the one at the start and every request of the run in order, except writes of 2^31 - 1 bytes or more |
| `CodeCacheMeaning.LastWriteMeans` | reference/chromium/generated_code_cache.cc:593-608 | by position: the last write is one after which nothing touches the key; without one the key was never touched, or deleted last |
| `CodeCacheMeaning.AnswersMean` | reference/chromium/generated_code_cache.cc:593-978 | by position: every callback of a run answers a fetch with the time and bytes of a write after which nothing touched the key before that fetch, or with time 0 and nothing if it was untouched or deleted last |
| `CodeCacheProof.InitialInv` | reference/chromium/generated_code_cache.cc:478-491 | the invariant holds of an empty cache |
| `CodeCacheProof.InitialStarts` | reference/chromium/generated_code_cache.cc:478-491 | an empty cache can start |
| `CodeCacheProof.RestartStarts` | reference/chromium/generated_code_cache.cc:627-650 | a cache that has come to rest can start again on its disk, remembering the writes and deletes of all runs before |
| `CodeCacheProof.KeptLastWrite` | reference/chromium/generated_code_cache.cc:593-608 | dropping fetches from the history changes nothing that a later fetch should return |
| `CodeCacheProof.StepKeepsInv` | reference/chromium/generated_code_cache.cc:508-1041 | every request and every completion keeps the invariant of queues, disk, phases and answers |
| `CodeCacheProof.RunKeepsInv` | reference/chromium/generated_code_cache.cc:508-1041 | the invariant holds in every state of every run, from an empty disk or from what earlier runs left |
| `CodeCacheProof.FetchesAreLinearizable` | reference/chromium/generated_code_cache.cc:593-978 | in every run each fetch answered gets the last write to its key requested before it (nothing after a delete), at most once, and exactly once when no operation is left |
| `CodeCacheProof.OnlyFrontInFlight` | reference/chromium/generated_code_cache.cc:996-1041 | no empty queue stays in the map and exactly the front operation of each queue is in flight |
| `CodeCacheProof.SkippedIsSame` | reference/chromium/generated_code_cache.cc:746-758 | a checksum entry of the right size already holds the data, so skipping the write is sound |
| `CodeCacheProof.ChecksumEntryIsEmptyOrSame` | reference/chromium/generated_code_cache.cc:746-758 | in every run, a checksum write finds its entry missing, empty or holding the same data, so the runtime checks there always hold |
| `CodeCacheProof.FinishFetchSha` | reference/chromium/generated_code_cache.cc:931-978 | the second stage of a fetch finds the bytes that the first stage's entry stands for |
| `CodeCacheProgress.CompletionShrinksWork` | reference/chromium/generated_code_cache.cc:721-1041 | each completion leaves strictly less work, counting second-stage fetches |
| `CodeCacheProgress.NeverStuck` | reference/chromium/generated_code_cache.cc:996-1041 | a key with something queued has a completion that can happen |
| `CodeCacheProgress.CompletionsRunOut` | reference/chromium/generated_code_cache.cc:721-1041 | without new requests no run of completions is longer than the work at its start |
| `CodeCacheProgress.RestAnswersAll` | reference/chromium/generated_code_cache.cc:593-1041 | in any run that has come to rest, every fetch has been answered exactly once |
| `GeneratedCodeCache.CodeCache.constructor` | reference/chromium/generated_code_cache.cc:478-491 | starts in the initial state of the model |
| `GeneratedCodeCache.CodeCache.Restarted` | reference/chromium/generated_code_cache.cc:478-491 | starts again on the disk of a cache that has come to rest |
| `GeneratedCodeCache.CodeCache.DequeueOperation` | reference/chromium/generated_code_cache.cc:1028-1041 | removes the front operation, and the queue with its last one |
| `GeneratedCodeCache.CodeCache.IssueNextOperation` | reference/chromium/generated_code_cache.cc:996-1003 | the front operation is in flight afterwards; deletes before it have taken effect |
| `GeneratedCodeCache.CodeCache.CloseOperationAndIssueNext` | reference/chromium/generated_code_cache.cc:1005-1009 | the front operation is gone and the next one issued |
| `GeneratedCodeCache.CodeCache.EnqueueOperationAndIssueIfNext` | reference/chromium/generated_code_cache.cc:1011-1026 | the operation is last in its queue and issued only if it is alone |
| `GeneratedCodeCache.CodeCache.WriteEntry` | reference/chromium/generated_code_cache.cc:508-591 | is the model's write request: data below 2^31 - 1 bytes always enters the history; anything larger changes nothing |
| `GeneratedCodeCache.CodeCache.FetchEntry` | reference/chromium/generated_code_cache.cc:593-608 | is the model's fetch request |
| `GeneratedCodeCache.CodeCache.DeleteEntry` | reference/chromium/generated_code_cache.cc:610-625 | is the model's delete request |
| `GeneratedCodeCache.CodeCache.OpenComplete` | reference/chromium/generated_code_cache.cc:721-902 | is the model's step for an entry opened, created or missing |
| `GeneratedCodeCache.CodeCache.SmallBufferComplete` | reference/chromium/generated_code_cache.cc:785-921 | is the model's step for the small stream |
| `GeneratedCodeCache.CodeCache.LargeBufferComplete` | reference/chromium/generated_code_cache.cc:795-929 | is the model's step for the large stream |
| `GeneratedCodeCache.CodeCache.ReadComplete` | reference/chromium/generated_code_cache.cc:931-978 | runs the callback, fails it, or queues the second stage, as the model does |
| `IndexModel.SizeAccepted` | reference/chromium/simple_index.cc:165-176 | a size is rejected exactly when its chunks need more than 30 bits, except that the last 255 sizes wrap around and are accepted as empty |
| `IndexModel.TotalPut` | reference/chromium/simple_index.cc:625-646 | setting one entry moves the total by the difference of the rounded sizes |
| `IndexModel.TotalRemove` | reference/chromium/simple_index.cc:431-446 | removing one entry takes its rounded size off the total |
| `IndexModel.TotalWithout` | reference/chromium/simple_backend_impl.cc:299-343 | removing different entries takes exactly their sizes off the total |
| `IndexModel.ProductFits` | reference/chromium/simple_index.cc:506-513 | the product in the score fits in 64 bits at every age if and only if the padded size is at most 2^32 + 1, against the comment there |
| `IndexModel.WrappedScoreMisorders` | reference/chromium/simple_index.cc:506-513 | a concrete larger entry of the same age whose score wraps to 0 |
| `IndexModel.RemovalsNoted` | reference/chromium/simple_index.cc:431-446 | removals, such as those of an eviction before loading, are the last request about their hashes and touch no other |
| `IndexModel.LastCallMeans` | reference/chromium/simple_index.cc:412-446 | by position: the last request is the one after which no other is about the hash |
| `IndexModel.EvictionMeans` | reference/chromium/simple_index.cc:486-547 | something is evicted exactly when none is in progress and the size is above the high watermark; the low one is reached, and would not be without the last one chosen |
| `IndexModel.ScoreMeans` | reference/chromium/simple_index.cc:504-524 | the score in numbers: seconds since last use; with the size heuristic times rounded size + 512 in 64 bits, divided by the factor for a high-priority entry younger than the period |
| `IndexModel.EvictedFirst` | reference/chromium/simple_index.cc:504-524 | no kept entry was used longer ago than an evicted one; with the size heuristic the same of age times (rounded size + 512) in 64 bits, divided by the factor for a high-priority entry younger than the period |
| `IndexModel.EvictedInOrder` | reference/chromium/simple_index.cc:504-524 | the same, over all pairs, with and without the size heuristic |
| `IndexModel.WithoutMeans` | reference/chromium/simple_backend_impl.cc:299-343 | what an eviction leaves are all other entries, as they were |
| `SimpleIndex.Index.constructor` | reference/chromium/simple_index.cc:241-275 | an empty index that waits for the file |
| `SimpleIndex.Index.Disjoint` | reference/chromium/simple_index.cc:412-446 | before loading, an entry is never both listed and noted as removed |
| `SimpleIndex.Index.Insert` | reference/chromium/simple_index.cc:412-429 | lists the entry if it is new; the total still is the sum; the request is remembered until loading |
| `SimpleIndex.Index.Remove` | reference/chromium/simple_index.cc:431-446 | drops the entry and its size; the request is remembered until loading |
| `SimpleIndex.Index.UpdateEntryIteratorSize` | reference/chromium/simple_index.cc:625-646 | the total stays the sum, also when a size is rejected; tells whether the rounded size changed |
| `SimpleIndex.Index.MergeInitializingSet` | reference/chromium/simple_index.cc:648-701 | an entry is listed afterwards exactly when its last request was an insert, or it had none and was in the file, with the newer metadata; the total is the sum |
| `SimpleIndex.Index.RankedHashes` | reference/chromium/simple_index.cc:493-541 | all hashes, by the 64-bit score as computed |
| `SimpleIndex.Index.InsertRanked` | reference/chromium/simple_index.cc:493-532 | one more hash at its place |
| `SimpleIndex.Index.TakeUntil` | reference/chromium/simple_index.cc:526-541 | the shortest part of the ranking that frees the amount |
| `SimpleIndex.Index.Victims` | reference/chromium/simple_index.cc:486-541 | the entries to evict: sufficient, minimal, and without the size heuristic none used later than a kept one |
| `SimpleIndex.Index.StartEvictionIfNeeded` | reference/chromium/simple_index.cc:486-547 | does nothing while one is running or the size is not above the high watermark; otherwise removes a choice in score order that brings the size to the low watermark, which it would not without the last one; without the size heuristic none was used later than a kept one |
| `SimpleIndex.Index.EvictionDone` | reference/chromium/simple_index.cc:588-596 | allows the next eviction |
| `SimpleIndex.Index.UseIfExists` | reference/chromium/simple_index.cc:470-484 | sets the last-used time of a listed entry outside the app cache; before loading, every hash may exist |
| `SimpleIndex.Index.SetEntryInMemoryData` | reference/chromium/simple_index.cc:462-468 | sets the two hint bits of a listed entry |
| `SimpleIndex.Index.SetTrailerPrefetchSize` | reference/chromium/simple_index.cc:558-569 | sets the prefetch size of a listed entry; 0 changes nothing |
| `SimpleIndex.Index.Evict` | reference/chromium/simple_index.cc:486-596 | an eviction from its start to the last report ends exactly once, with the size not above the high watermark |
| `EvictionRuns.Cache.constructor` | reference/chromium/simple_index.cc:241-275 | an index and its backend, with nothing under way |
| `EvictionRuns.Cache.Report` | reference/chromium/simple_backend_impl.cc:99-112 | one report, of an old eviction's job, the latest one's or another caller's: an eviction ends exactly when the latest one's callback runs |
| `EvictionRuns.Cache.Finish` | reference/chromium/simple_backend_impl.cc:99-112 | only the latest eviction's callback can still run; late reports after a first error run nothing |
| `EvictionRuns.Cache.SetSize` | reference/chromium/simple_index.cc:571-586 | may start an eviction, only when none is in progress, whatever old jobs are still under way |
| `EvictionRuns.Cache.SetLimit` | reference/chromium/simple_index.cc:309-318 | may start an eviction, only when none is in progress, whatever old jobs are still under way |
| `EvictionRuns.Cache.Doom` | reference/chromium/simple_backend_impl.cc:299-363 | dooms of other callers do not touch the evictions |
| `EvictionRuns.Cache.Operate` | reference/chromium/simple_index.cc:309-701 | every index operation keeps jobs, barriers and the eviction flag in step |
| `EvictionRuns.Cache.Happen` | reference/chromium/simple_index.cc:309-701 | so does every event |
| `EvictionRuns.Cache.RunAll` | reference/chromium/simple_index.cc:309-701 | over any interleaving of index operations, other dooms and single job reports the size is the sum, and an eviction is in progress exactly while the latest one's callback has not run |
| `EvictionRuns.Cache.NotStuck` | reference/chromium/simple_index.cc:588-596 | an eviction in progress still has a job under way |
| `SimpleIndex.BarrierContext.RanAtMostOnce` | reference/chromium/simple_backend_impl.cc:99-112 | a final callback never runs twice |
| `SimpleIndex.Index.UpdateEntrySize` | reference/chromium/simple_index.cc:571-586 | changes one size and, if its rounded value changed, may evict as above |
| `SimpleIndex.Index.SetMaxSize` | reference/chromium/simple_index.cc:309-318 | sets the watermarks, the low one never above the high one, and on shrinking brings the size under them |
| `SimpleIndex.ChoiceOfPrefix` | reference/chromium/simple_index.cc:493-541 | the shortest sufficient part of a ranking frees enough, is minimal, and keeps no entry with a higher score than an evicted one |
| `SimpleIndex.SumSizes` | reference/chromium/simple_index.cc:671-677 | the loop computes the total |
| `SimpleIndex.Backend.constructor` | reference/chromium/simple_backend_impl.cc:210-246 | nothing is active or being doomed |
| `SimpleIndex.Backend.DoomEntries` | reference/chromium/simple_backend_impl.cc:299-363 | splits the hashes as a multiset by whether they are in use, starts a doom for each one in use and one for the rest, all reporting to a fresh barrier that expects exactly these reports, and removes all from the index |
| `SimpleIndex.Backend.SplitForDoom` | reference/chromium/simple_backend_impl.cc:313-325 | the backwards swap-remove loop keeps the multiset and separates the hashes in use |
| `SimpleIndex.Backend.DoomEntriesComplete` | reference/chromium/simple_backend_impl.cc:912-923 | the mass-doomed hashes are released and the barrier is told once |
| `SimpleIndex.Backend.DoomSingly` | reference/chromium/simple_backend_impl.cc:331-337 | each entry in use starts being doomed, owes the barrier one report and leaves the index |
| `SimpleIndex.Backend.DoomTogether` | reference/chromium/simple_backend_impl.cc:339-343 | the rest leave the index and are marked as being doomed |
| `SimpleIndex.Backend.Complete` | reference/chromium/simple_backend_impl.cc:99-112 | one report: its job is over, its barrier has one result more and expects one less |
| `SimpleIndex.Backend.CompleteOne` | reference/chromium/simple_backend_impl.cc:99-112 | any one of a barrier's jobs reports; jobs of other barriers stay |
| `SimpleIndex.Backend.RunDooms` | reference/chromium/simple_backend_impl.cc:299-363 | when all jobs have reported, in any order and with any results, the callback has ended the eviction exactly once |
| `SimpleIndex.JobDone` | reference/chromium/simple_backend_impl.cc:328-330 | finishing a job leaves its barrier one report less and all other jobs as they were |
| `SimpleIndex.OthersMean` | reference/chromium/simple_backend_impl.cc:99-112 | which jobs the end of an eviction leaves under way: just those of other barriers |
| `SimpleIndex.FirstErrorIs` | reference/chromium/simple_backend_impl.cc:117-120 | the first error is the earliest result that is not OK |
| `SimpleIndex.SwapRemove` | reference/chromium/simple_backend_impl.cc:313-325 | overwriting an element by the last and shrinking removes just that element |
| `SimpleIndex.RunsOnce` | reference/chromium/simple_backend_impl.cc:104-126 | the final callback has run with the first error if there is one, with OK if all results are in, and otherwise not |
| `SimpleIndex.BarrierContext.constructor` | reference/chromium/simple_backend_impl.cc:88-97 | a barrier that has heard nothing |
| `SimpleIndex.BarrierContext.Notify` | reference/chromium/simple_backend_impl.cc:99-112 | the callbacks run so far are those the results so far call for |
| `SimpleIndex.BarrierContext.RanOnce` | reference/chromium/simple_backend_impl.cc:104-126 | once all results are in the callback has run exactly once, with the first error or OK |
| `IndexFile.CutToSeconds` | reference/chromium/simple_index.cc:126-148 | a last-used time from 1 to 2^32 - 1 seconds after the Unix epoch is cut to whole seconds |
| `IndexFile.SecondsRoundTrip` | reference/chromium/simple_index.cc:126-148 | stored seconds survive being written as a time and read again |
| `IndexFile.RecordRoundTrip` | reference/chromium/simple_index.cc:189-239 | a record reads back as written, with the two hint bits |
| `IndexFile.FileRoundTrip` | reference/chromium/simple_index_file.cc:541-615 | frame, checksum, head, every record and the time of a written file are found again |
| `IndexLoad.Deserialize` | reference/chromium/simple_index_file.cc:556-615 | the load loop ends on every input, and loads what its definition says |
| `IndexLoad.DeserializeDistinct` | reference/chromium/simple_index_file.cc:586-615 | with an intact frame and different hashes, exactly the listed records are loaded if the head is acceptable |
| `IndexLoad.DeserializeRepeated` | reference/chromium/simple_index_file.cc:586-602 | a repeated hash makes a file with no spare records fail to load |
| `IndexLoad.LoadReads` | reference/chromium/simple_index_file.cc:586-602 | a load that succeeds has read at least as many good records as it was to load |
| `IndexLoad.LoadCounts` | reference/chromium/simple_index_file.cc:586-602 | a load that succeeds ends with exactly the number of entries in the header |
| `IndexLoad.DiskLimit` | reference/chromium/simple_index_file.cc:493-539 | from disk, for any file and cache type, at most 999,998 entries are loaded, two fewer than the count check allows |
| `IndexLoad.Serialize` | reference/chromium/simple_index_file.cc:541-554 | writes every entry once, in any order, and the final data |
| `IndexLoad.LoadOfSerialize` | reference/chromium/simple_index_file.cc:541-615 | Chromium loads exactly the entry set it wrote, whatever the iteration order |
| `IndexMeaning.FrameMeans` | reference/chromium/simple_index_file.cc:556-578 | the payload length is in bytes 0 to 4 and is that of the rest of the file; its CRC-32 is in bytes 4 to 8 |
| `IndexMeaning.HeadMeans` | reference/chromium/simple_index_file.cc:357-371 | where the fields of the head are, and that it is accepted with the right magic number, version 8 or 9, at most 1,000,000 entries and a reason below 4 |
| `IndexMeaning.RecordMeans` | reference/chromium/simple_index.cc:189-239 | where the fields of a record are, and that one is refused when it is cut off or its packed field has more than 38 bits |
| `IndexMeaning.RecordPlaces` | reference/chromium/simple_index_file.cc:541-554 | records follow one another from byte 40 on, 24 bytes each |
| `IndexMeaning.LoadMeans` | reference/chromium/simple_index_file.cc:556-615 | whatever Chromium loads has the right length, checksum, magic number, version, count and reason at their places |
| `IndexMeaning.FromDiskMeans` | reference/chromium/simple_index_file.cc:493-539 | from disk, a file longer than 24,000,000 bytes is refused first |
| `IndexMeaning.LastUsedMeans` | reference/chromium/simple_index.cc:126-148 | seconds since 1970 of a time in microseconds since 1601: 0 only for the null time, 1 before the first second, saturated at 2^32 - 1; and back |
| `IndexMeaning.MetaMeans` | reference/chromium/simple_index.cc:201-239 | what a record becomes in memory; the app cache has a prefetch size only from version 9 on |
| `ByteSeqs.RoundTrip32` | src/com/cfks/simplecache/SimpleCacheFormat.java:49-75 | a 32-bit field reads back as written |
| `ByteSeqs.RoundTrip64` | src/com/cfks/simplecache/SimpleCacheFormat.java:56-82 | a 64-bit field reads back as written |
| `ByteSeqs.FieldBytes` | src/com/cfks/simplecache/SimpleCacheFormat.java:49-65 | the least significant byte of a field comes first |
| `ByteSeqs.SignedMeans` | src/com/cfks/simplecache/SimpleCacheFormat.java:49-54 | a 32-bit field as a Java `int` |
| `JavaEntry.ReadersAgree` | src/com/cfks/simplecache/SimpleCacheEntry.java:78-152 | on every file: the Java reader finds no fault (version 5, stream 1 size field within `int`) if and only if Chromium opens it and its stream 1 checks pass, with the same key and streams |
| `JavaEntry.ParseOfSerialize` | src/com/cfks/simplecache/SimpleCacheEntry.java:78-197 | parsing a written file gives the same fields and no warnings |
| `JavaEntry.ChromiumOpensJavaFile` | src/com/cfks/simplecache/SimpleCacheEntry.java:158-197 | Chromium opens every version-5 Java file, with or without key digest, key known or not, with the same key and both streams |
| `JavaEntry.RewriteOfClosed` | src/com/cfks/simplecache/SimpleCacheEntry.java:158-197 | rewriting a file Chromium closed with both checksums gives the same bytes |
| `JavaEntry.KeyEndFits` | src/com/cfks/simplecache/SimpleCacheEntry.java:93-97 | in wrapping 32-bit arithmetic the key is copied if and only if it truly fits |
| `JavaEntry.TailFits` | src/com/cfks/simplecache/SimpleCacheEntry.java:107-121 | in wrapping 32-bit arithmetic the records are accepted if and only if they truly fit |
| `JavaEntry.FindTail` | src/com/cfks/simplecache/SimpleCacheEntry.java:99-121 | finds both records, or fails, exactly as true offsets decide |
| `JavaEntry.Decode` | src/com/cfks/simplecache/SimpleCacheEntry.java:78-128 | every malformed file, whatever its size fields, is an exception; any other gives its fields |
| `JavaEntry.SimpleCacheEntry.constructor` | src/com/cfks/simplecache/SimpleCacheEntry.java:58-72 | field defaults |
| `JavaEntry.SimpleCacheEntry.Parse` | src/com/cfks/simplecache/SimpleCacheEntry.java:78-134 | a fresh object with the file's fields and the warnings asked for |
| `JavaEntry.SimpleCacheEntry.Verify` | src/com/cfks/simplecache/SimpleCacheEntry.java:136-152 | appends one warning per wrong hash, in terms of the stored flag bits (`EntryMeaning.WarningsMean`) |
| `JavaEntry.SimpleCacheEntry.Serialize` | src/com/cfks/simplecache/SimpleCacheEntry.java:158-197 | seals the fields and gives the assembled file; an exception without a key or when the file is too long for an array |
| `EntryMeaning.ParseMeans` | src/com/cfks/simplecache/SimpleCacheEntry.java:78-134 | the Java reader accepts a file exactly when the magic numbers are right and key and records fit; and where every field comes from |
| `EntryMeaning.ParseTooShort` | src/com/cfks/simplecache/SimpleCacheEntry.java:79-81 | a file without room for a header and two records is malformed |
| `EntryMeaning.WarningsMean` | src/com/cfks/simplecache/SimpleCacheEntry.java:136-152 | each of the four warnings is there exactly when its hash is stored (bit 0 or 1 of the flags) and differs |
| `EntryMeaning.ChangedStreamsWarn` | src/com/cfks/simplecache/SimpleCacheEntry.java:140-145 | on the bytes of a file: a checksum that is stored and differs from that of the stream is reported, for either stream |
| `EntryMeaning.JavaBytes` | src/com/cfks/simplecache/SimpleCacheEntry.java:158-197 | every field of a written file by position, with flags 1 and, with the digest, 3 |
| `JavaEntry.Concat` | src/com/cfks/simplecache/SimpleCacheFormat.java:207-219 | the concatenation; an exception if and only if it is too long, also when the 32-bit total wraps to a small number |
| `JavaIndex.SizesAgree` | src/com/cfks/simplecache/SimpleCacheIndex.java:41-47 | Java and Chromium accept the same sizes and round them alike on every 64-bit pattern |
| `JavaIndex.ParseOfSerialize` | src/com/cfks/simplecache/SimpleCacheIndex.java:63-143 | parsing a written index gives the same index, hints masked, without warnings |
| `JavaIndex.JavaThenChromium` | src/com/cfks/simplecache/SimpleCacheIndex.java:63-117 | what Java reads without warnings and with different hashes, Chromium loads as the same set exactly when it accepts the head |
| `JavaIndex.ChromiumThenJava` | src/com/cfks/simplecache/SimpleCacheIndex.java:63-117 | Java reads every file Chromium loads, without warnings |
| `JavaIndex.ChromiumLoadsJavaIndex` | src/com/cfks/simplecache/SimpleCacheIndex.java:123-143 | Chromium loads a Java index if and only if its hashes differ, it has at most 1,000,000 entries and the reason is 0..3; sizes and hints are the same, times cut to seconds |
| `JavaIndex.JavaIndexFromDisk` | reference/chromium/simple_index_file.cc:493-539 | a Java index loads from disk if and only if its hashes differ, it has at most 999,998 entries and the reason is 0..3 |
| `JavaIndex.OneTooMany` | reference/chromium/simple_index_file.cc:493-539 | 999,999 different hashes pass the count check and are refused from disk |
| `JavaIndex.PutKeepsDistinct` | src/com/cfks/simplecache/SimpleCacheIndex.java:154-163 | putting a record keeps hashes different and replaces just the record of that hash |
| `JavaIndex.SizeSumIsTotal` | src/com/cfks/simplecache/SimpleCacheIndex.java:165-171 | the Java total is the total Chromium computes over the loaded set |
| `JavaIndex.RecordsOfHas` | src/com/cfks/simplecache/SimpleCacheIndex.java:100-114 | the records read are exactly those in the file |
| `IndexMeaning.JavaParseMeans` | src/com/cfks/simplecache/SimpleCacheIndex.java:63-117 | the Java reader accepts a file exactly when length, magic number, version and all records are right; and warns exactly when the checksum differs |
| `IndexMeaning.JavaTooShort` | src/com/cfks/simplecache/SimpleCacheIndex.java:63-75 | a file without room for a head is an exception |
| `JavaIndex.PickleWriter.constructor` | src/com/cfks/simplecache/SimpleCacheFormat.java:288-289 | empty output |
| `JavaIndex.PickleWriter.Align4` | src/com/cfks/simplecache/SimpleCacheFormat.java:291-295 | pads with zeros to a multiple of four |
| `JavaIndex.PickleWriter.WriteU32` | src/com/cfks/simplecache/SimpleCacheFormat.java:297-303 | pads, then appends the field |
| `JavaIndex.PickleWriter.WriteU64` | src/com/cfks/simplecache/SimpleCacheFormat.java:309-315 | pads, then appends the field |
| `JavaIndex.SimpleCacheIndex.constructor` | src/com/cfks/simplecache/SimpleCacheIndex.java:50-57 | field defaults |
| `JavaIndex.SimpleCacheIndex.Parse` | src/com/cfks/simplecache/SimpleCacheIndex.java:63-117 | a fresh object with the file's fields; every malformed file, also one whose sizes wrap, is an exception |
| `JavaIndex.SimpleCacheIndex.Serialize` | src/com/cfks/simplecache/SimpleCacheIndex.java:123-143 | gives the framed file, or an exception when it is too long for an array |
| `JavaIndex.SimpleCacheIndex.Put` | src/com/cfks/simplecache/SimpleCacheIndex.java:154-163 | replaces the first record of the hash or appends |
| `JavaIndex.SimpleCacheIndex.RecomputeCacheSize` | src/com/cfks/simplecache/SimpleCacheIndex.java:165-171 | the 64-bit sum of the rounded sizes |
| `HttpMetadata.FindBytes` | src/com/cfks/simplecache/HttpCacheMetadata.java:151-163 | the first occurrence |
| `HttpMetadata.FindLine` | src/com/cfks/simplecache/HttpCacheMetadata.java:61-66 | the first occurrence at the start of a line; what case means is `HttpMeaning.LineNames` |
| `HttpMetadata.MatchIsLookup` | src/com/cfks/simplecache/HttpCacheMetadata.java:54-74 | the position search agrees with the line-by-line definition of value and replacement |
| `HttpMetadata.LookupReplaced` | src/com/cfks/simplecache/HttpCacheMetadata.java:128-145 | the replaced header has the new value |
| `HttpMetadata.LookupOther` | src/com/cfks/simplecache/HttpCacheMetadata.java:128-145 | every other header keeps its value |
| `HttpMetadata.DigitsRoundTrip` | src/com/cfks/simplecache/HttpCacheMetadata.java:88-88 | a decimal number reads back |
| `HttpMetadata.DeclaredReplaced` | src/com/cfks/simplecache/HttpCacheMetadata.java:28-42 | after the replacement the declared content-length is the new one |
| `HttpMetadata.OneName` | src/com/cfks/simplecache/HttpCacheMetadata.java:54-74 | a line starts with at most one header name |
| `HttpMeaning.TextsAre` | src/com/cfks/simplecache/HttpCacheMetadata.java:25-63 | the texts searched for, character by character |
| `HttpMeaning.DecimalIs` | src/com/cfks/simplecache/HttpCacheMetadata.java:88-88 | numbers are written in decimal, with a minus sign if negative |
| `HttpMeaning.LineNames` | src/com/cfks/simplecache/HttpCacheMetadata.java:61-66 | a line has a lower-case ASCII name exactly when it spells it, each letter in either case, before a colon |
| `HttpMeaning.LookupByLine` | src/com/cfks/simplecache/HttpCacheMetadata.java:54-74 | line by line: the value is what follows the colon on the first line that spells the name in any case, and a replacement changes just that |
| `HttpMeaning.LookupOnLast` | src/com/cfks/simplecache/HttpCacheMetadata.java:54-74 | the same on the last line, which no NUL ends |
| `HttpMeaning.AnySpelling` | src/com/cfks/simplecache/HttpCacheMetadata.java:61-74 | a first line with any spelling of the name has its value, and its value is replaced |
| `HttpMeaning.TrimMeans` | src/com/cfks/simplecache/HttpCacheMetadata.java:73-73 | trimming cuts off just the characters up to the space at both ends |
| `HttpMeaning.DeclaredByLine` | src/com/cfks/simplecache/HttpCacheMetadata.java:25-42 | line by line: the declared length is the number after the colon of the first content-length line, in any case, that has one there; -1 if it is too large |
| `HttpPatch.FindHeader` | src/com/cfks/simplecache/HttpCacheMetadata.java:113-126 | the offset of the first status line, if its stored length is accepted |
| `HttpPatch.HeaderBlock` | src/com/cfks/simplecache/HttpCacheMetadata.java:103-110 | the block behind the status line found, none, or an exception |
| `HttpPatch.ThrowsWhenWrapped` | src/com/cfks/simplecache/HttpCacheMetadata.java:113-132 | reading the block is an exception exactly when offset plus stored length leaves the range of `int` |
| `HttpMeaning.BlockMeans` | src/com/cfks/simplecache/HttpCacheMetadata.java:103-126 | on the bytes: the block is where the first "HTTP/1." is and as long as the 4 bytes before it say; none, or an exception, otherwise |
| `HttpMeaning.NoBlockMeans` | src/com/cfks/simplecache/HttpCacheMetadata.java:113-126 | no block without "HTTP/1.", or with the first one in the first four bytes |
| `HttpPatch.ValueIsLookup` | src/com/cfks/simplecache/HttpCacheMetadata.java:54-74 | a header value is the trimmed rest of the first line with that name |
| `HttpMeaning.HeaderInAnyCase` | src/com/cfks/simplecache/HttpCacheMetadata.java:54-74 | a stream with a header line in any spelling after its status line has the trimmed value |
| `HttpPatch.HeaderValue` | src/com/cfks/simplecache/HttpCacheMetadata.java:54-74 | the trimmed value on the first line with the name, none, or an exception |
| `HttpPatch.ReplaceContentLength` | src/com/cfks/simplecache/HttpCacheMetadata.java:128-145 | the block with the first content-length line rewritten, or none |
| `HttpPatch.SpliceBlock` | src/com/cfks/simplecache/HttpCacheMetadata.java:92-100 | the stream with the new block; an exception exactly when the padding is missing or the result is too long |
| `HttpPatch.PatchContentLength` | src/com/cfks/simplecache/HttpCacheMetadata.java:81-101 | the patched stream, the unchanged one when there is nothing to patch, or an exception |
| `HttpPatch.PatchLayout` | src/com/cfks/simplecache/HttpCacheMetadata.java:92-101 | the stream's length field is right, the block's is if and only if bytes shared with it agree (none are from offset 8 on), and what follows is unchanged and again starts at a multiple of four |
| `HttpMeaning.AnyCaseIsPatched` | src/com/cfks/simplecache/HttpCacheMetadata.java:128-145 | a content-length line in any spelling after the status line is the one that a patch rewrites |
| `HttpPatch.PatchedBlock` | src/com/cfks/simplecache/HttpCacheMetadata.java:81-126 | at any offset, the patched stream holds the new block if and only if the length fields agree on shared bytes and form no earlier status line |
| `HttpPatch.PatchKeepsMeaning` | src/com/cfks/simplecache/HttpCacheMetadata.java:81-101 | the patched stream reports the new content-length and keeps every other header |
| `HttpPatch.SharedLengthField` | src/com/cfks/simplecache/HttpCacheMetadata.java:92-101 | with the block at offset 4 the one length field is right for the block only when nothing follows it |
| `HttpPatch.PrefixFields` | src/com/cfks/simplecache/HttpCacheMetadata.java:92-101 | where both length fields are before a patched block, and that the second is whole exactly when the shared bytes agree |
| `HttpPatch.PatchHidesBlock` | src/com/cfks/simplecache/HttpCacheMetadata.java:81-126 | a stream that declares length 9 before the patch and none after it, because the new length field forms an earlier status line |
| `HttpPatch.PatchKeepsEncoding` | src/com/cfks/simplecache/HttpCacheMetadata.java:45-48 | a harmless patch leaves the content-encoding as it was |
| `Library.DecodeOfEncode` | src/com/cfks/simplecache/ContentEncoding.java:62-108 | decoding undoes encoding for every normalized encoding name, given inverse codecs |
| `LibraryMeaning.SpelledEncoding` | src/com/cfks/simplecache/ContentEncoding.java:37-47 | a name in any case, with blanks around it, is normalized to its lower case |
| `LibraryMeaning.SpelledWithParameters` | src/com/cfks/simplecache/ContentEncoding.java:37-47 | so it is with parameters after a semicolon |
| `LibraryMeaning.OnlyParameters` | src/com/cfks/simplecache/ContentEncoding.java:37-47 | there is no encoding when nothing stands before the first semicolon |
| `LibraryMeaning.EncodingsMean` | src/com/cfks/simplecache/ContentEncoding.java:50-107 | "gzip" and "deflate" are decoded and encoded by their own functions; under any other name the data stays as it is |
| `LibraryMeaning.CompressedRestores` | src/com/cfks/simplecache/SimpleCacheLibrary.java:137-158 | an entry stored as gzip or deflate restores decompressed, or as it is with a warning when that fails |
| `LibraryMeaning.GzipRestores` | src/com/cfks/simplecache/SimpleCacheLibrary.java:137-158 | so it does for "gzip" in any case, with blanks and parameters |
| `LibraryMeaning.PlainRestores` | src/com/cfks/simplecache/SimpleCacheLibrary.java:137-158 | an entry of any other encoding, or of none, restores as it is |
| `LibraryMeaning.RestoredWarnings` | src/com/cfks/simplecache/SimpleCacheLibrary.java:137-158 | a restored entry has just the warnings of its file |
| `LibraryMeaning.StoredMeans` | src/com/cfks/simplecache/SimpleCacheLibrary.java:187-205 | a new body is stored compressed exactly when the entry is |
| `LibraryMeaning.UnencodedMeans` | src/com/cfks/simplecache/SimpleCacheLibrary.java:187-205 | without automatic encoding the new body is stored as it is, whatever the entry's encoding |
| `LibraryMeaning.EntryHashMeans` | src/com/cfks/simplecache/SimpleCacheFormat.java:118-121 | the hash is the first eight bytes of the SHA-1, least significant first |
| `LibraryMeaning.UpdatedMeans` | src/com/cfks/simplecache/SimpleCacheLibrary.java:211-221 | the updated index has the new record in place of the first of its hash or at the end, reason 2 and the new time |
| `Library.RestoreEntry` | src/com/cfks/simplecache/SimpleCacheLibrary.java:137-158 | one entry: missing file, exception, raw body or decoded body |
| `Library.Restore` | src/com/cfks/simplecache/SimpleCacheLibrary.java:133-160 | one result per index entry in order; any exception ends it |
| `Library.RestoreAllPointwise` | src/com/cfks/simplecache/SimpleCacheLibrary.java:133-160 | restoring succeeds if and only if each entry does, and gives each entry's own result |
| `Library.ModifyEntryBody` | src/com/cfks/simplecache/SimpleCacheLibrary.java:187-205 | the rewritten entry file, or an exception |
| `Library.UpdateIndex` | src/com/cfks/simplecache/SimpleCacheLibrary.java:211-221 | the rewritten index file, or an exception |
| `Library.Modify` | src/com/cfks/simplecache/SimpleCacheLibrary.java:243-249 | hash, entry file and index file, or an exception |
| `Library.ModifiedFile` | src/com/cfks/simplecache/SimpleCacheLibrary.java:187-205 | the rewritten file parses to the same key and version with the new streams, without warnings |
| `Library.ModifiedFileRestores` | src/com/cfks/simplecache/SimpleCacheLibrary.java:137-205 | restoring the rewritten file gives the new body, the same key and content-encoding, and no warnings |
| `Library.ModifiedIndex` | src/com/cfks/simplecache/SimpleCacheLibrary.java:211-221 | the rewritten index parses to the old list with the one record put |
| `Library.PutHashes` | src/com/cfks/simplecache/SimpleCacheIndex.java:154-163 | putting a record changes no hash and no position in the list |
| `Library.ModifyThenRestore` | src/com/cfks/simplecache/SimpleCacheLibrary.java:133-249 | after a modification, restoring succeeds if and only if every other entry could be restored before, gives the new body for the modified hash and the old results for all others, in the same order |
| `Library.ModifySucceeds` | src/com/cfks/simplecache/SimpleCacheLibrary.java:187-249 | once the new streams are determined, a modification succeeds if and only if neither file outgrows an array |
| `Library.HeaderlessEdits` | src/com/cfks/simplecache/SimpleCacheLibrary.java:187-205 | an entry without a header block keeps its stream 0 and stores the new body as it is |
| `Library.ChromiumOpensModified` | src/com/cfks/simplecache/SimpleCacheLibrary.java:187-205 | Chromium opens the rewritten file with the same key and the new streams |
| `Library.ChromiumLoadsModified` | src/com/cfks/simplecache/SimpleCacheLibrary.java:211-221 | Chromium loads the rewritten index, its stored total being the sum over what is loaded, with the new time and rounded file size for the entry and every other entry as listed |

## Left out

- Failed, short or partial file operations, and the dooming they cause: every file operation completes in full.
- File tracker, file names, renames on doom, directory scan, index recovery from the directory, task runners, timers and metrics: I/O plumbing.
- Stream 2 and its lazily omitted file: a simpler copy of the stream 1 case.
- Sparse writes with `offset + buf_len` of 2^64 or more, and file offsets beyond 64 bits: sizes and file offsets are unbounded numbers here, and `SparseStore.ScanSparseFile` reports the point where its offset would wrap.
- A buffer longer or shorter than the stated length: the buffer is the bytes written.
- SparseEntry.SparseSynchronousEntry.ReopenSparseFile: claims for files this code wrote and shorter than 2^64 bytes only, because the scan does not check that ranges are disjoint.
- EntryOpen.CreateWriteCloseOpen: given checksums are right, stream 0 is within `int` and file offsets within 63 bits, as the entry's callers ensure.
- EntrySessions.Edit: which records a close gets is decided by a class whose source is not part of the repository; here both after stream 1 was written, stream 0's alone when only stream 0 changed, none when nothing did.
- GeneratedCodeCache.CodeCache.WriteEntry: the disk holds only what earlier runs of this cache left after coming to rest, the backend is ready, there are no disk errors or evictions, the in-memory cache is off, and no two large data written share a SHA-256.
- Reads of both code-cache streams complete small first, as the code expects; keys are the resource keys built from URLs, which contain a newline.
- CodeCacheProof.FetchesAreLinearizable: that completions arrive at all is up to the disk backend; `CodeCacheProgress.CompletionsRunOut` bounds how many are needed.
- SimpleIndex.Index.Insert: the clock is a parameter, and so are the hint bits that mean high priority; timers that write the index are not part of this model.
- Unbounded running size: `cache_size_` does not wrap here.
- SimpleIndex.Backend.DoomEntries: how a single entry in use is doomed, and how its doom waits for an earlier one, is not part of this model; only that it reports once.
- Opening, creating and iterating backend entries, and operations waiting on a doom: they depend on classes whose source is not part of the repository.
- base::Pickle: only its header-size check and aligned reads, as far as the index file relies on them.
- JavaEntry.SimpleCacheEntry.Serialize: the magic number field has its default value, as after every parse.
- JavaIndex.SimpleCacheIndex.Put: list entries are values, so an entry object shared between two lists is not modelled.
- HttpPatch.HeaderValue: header names are Latin-1 text.
- Library.Modify: stored bodies longer than an array can hold are exceptions; memory limits below that are not modelled.
- Library.ModifyThenRestore: when a content-length line is rewritten, the new length fields agree on the bytes they share and form no earlier status line (`HttpPatch.PatchedBlock` is the exact condition for finding the block again, `HttpPatch.PatchHidesBlock` an input that fails it).
- The code-cache entry format of the Java library, the fake index, the key hash and entry file names: short, easy definitions.
- The algorithms of CRC-32, SHA-1, SHA-256, gzip and zlib.
