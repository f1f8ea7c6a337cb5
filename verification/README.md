# A verified model of libradosfs

libradosfs builds a filesystem on a flat object store. This project models its
hard core in Dafny and proves what that core promises:

- **Striped files.** An inode is a set of fixed-size chunk objects and a recorded
  size, kept as hexadecimal text of its low 32 bits. Writes, truncates and removes on
  the chunks are proved to be the same operations on one flat byte sequence, over
  whole runs, for the in-place form and the whole-chunk form of aligned pools. Vector reads are
  split per chunk, completed in any order, and proved to deliver that sequence.
- **Directory logs.** A directory is an append-only text log. Printing and parsing
  of its lines, incremental caching against full replay, compaction, and the
  protocol between one compacting client and many appending ones.
- **The directory cache's recency list.** A doubly linked list, a map and a running
  size, with least-recently-used eviction.
- **The namespace.** Path objects, directory logs and the client's path cache under
  create, mkpath, remove and recursive rename, against one tree of directories and
  their files; links to directories and to files, resolved by prefix rewriting.
- **Inline buffers.** Read, compute and commit-if-unchanged loops of many clients;
  buffer and chunks together against the flat file.
- **Asynchronous completion.** The counter a synchronous read waits on, and the code
  it reports.

The object store is modelled as values that change in atomic steps: an operation
with several parts applies its parts in order, as a whole, or is cancelled by its
comparison; truncating an object that does not exist does nothing, and a missing
attribute compares as empty. Code that
updates state is a class or a method with loops, proved against specification
functions; the properties are lemmas about those functions. Where the code does not
keep what it sets out to keep, the model follows the code, a lemma gives a concrete
input, and an if-and-only-if lemma says exactly when it is kept:

- truncating to a positive multiple of the chunk size, and any operation that ends at
  2^32 or beyond (`FileIO.StepRefines`, `FileIO.RunRefines`, `FileIO.LargeFileIsCut`);
- reading past the end of a file in an aligned pool
  (`ReadCompletion.AlignedReadAfterAnyRun`);
- vector reads that ask for nothing (`AsyncOps.ReadEndsUnlessEmpty`), and reads that go on
  past the last chunk, which fail whatever they delivered (`ReadStatus.StatusOfRead`);
- backslashes in names (`LogText.EscapeRoundTrip`, `LogLines.IndexLineRoundTrip`), and
  what they do to directories (`Namespace.ListedWhenClean`, `Namespace.MadeKeepsInv`,
  `Namespace.RenamedKeepsInv`, `Directories.BackslashChildIsOrphaned`);
- backslashes in metadata keys and values (`MetadataLines.MetadataLineRoundTrip`);
- removing several metadata keys in one line (`LogLines.RemoveLineParses`);
- removal lines for absent entries (`DirLog.CachedNamesArePlain`); names with a zero
  character are found cut off at it (`DirLog.ZeroCharacterNotFound`);
- metadata and backslashes across a compaction (`RawMetadata.CompactionGivesBack`);
- a log rewritten to the size already read (`DirLog.SameSizeRight`);
- lines appended at the wrong moment of a compaction (`CompactProtocol.SurvivesRound`,
  `CompactProtocol.SurvivesNextRound`);
- links that lead back to themselves (`Links.EndsUnlessReturning`, `Links.EndsUnlessCyclic`);
- paths that go on past a link to a file (`Links.FoundMeans`, `Links.FileLinkIsGlued`), and
  targets with quotes in their paths (`LinkRecord.TargetComesBack`);
- object names of chunk numbers of 2^32 and more (`Hex.ChunkNames`);
- inline writes that do not fit from their offset on (`InlineBuffering.CapacityKept`), and
  what they, old recorded sizes and short contents do to the file as a whole
  (`InlineFile.RunShows`, `InlineFile.InlineReadRight`, `InlineFile.EntrySizeRight`).

Check the whole project with `dafny verify dfyconfig.toml`.

| file | module | about |
|---|---|---|
| TextOrder.dfy | TextOrder | byte-wise string order, as sorted containers use it |
| Errno.dfy | Errno | error codes |
| Hex.dfy | Hex | fixed-width hexadecimal: recorded sizes, chunk object names |
| ChunkStore.dfy | ChunkStore | chunks and size of an inode as values; write, truncate, remove |
| FileIO.dfy | FileIO | refinement of a flat file, whole runs, the `File` class |
| VectorRead.dfy | VectorRead | splitting a vector read |
| ReadCompletion.dfy | ReadCompletion | callbacks of a vector read |
| ReadStatus.dfy | ReadStatus | the status code of a vector read |
| LogText.dfy | LogText | escaping and tokenising |
| LogLines.dfy | LogLines | log lines printed and parsed |
| MetadataLines.dfy | MetadataLines | which names, keys and values a metadata line gives back |
| DirLog.dfy | DirLog | replay, incremental reading, compaction |
| EntryMetadata.dfy | EntryMetadata | what a log leaves for an entry and its metadata, from its lines |
| RawMetadata.dfy | RawMetadata | what a compaction does to metadata |
| DirCache.dfy | DirCaching | the `DirCache` class |
| CompactProtocol.dfy | CompactProtocol | compaction among concurrent appends |
| PriorityCache.dfy | PriorityCaching | the recency list and eviction |
| Recency.dfy | Recency | what the cache holds, from the calls made to it |
| Paths.dfy | Paths | paths as components and as text |
| Namespace.dfy | Namespace | directories, their text logs and the path cache as values |
| Trees.dfy | Trees | the tree of directories and files, its operations, and the stores that show it |
| Directories.dfy | Directories | create, mkpath, remove and rename |
| Links.dfy | Links | link resolution, for links to directories and to files |
| LinkRecord.dfy | LinkRecord | the record of a link printed and read back |
| InlineBuffer.dfy | InlineBuffering | the inline buffer's retry loops |
| InlineFile.dfy | InlineFile | inline buffer and chunks together |
| AsyncOp.dfy | AsyncOps | asynchronous operations |

## Model

| member | source | states |
|---|---|---|
| `Hex.PrintOrder` | src/radosfscommon.cc:1219-1226 | at equal width, text order of hexadecimal numbers is numeric order |
| `Hex.ParsePrint` | src/FileIO.cc:1076-1104 | reading a printed number back gives the number |
| `Hex.FileSizeRoundTrip` | src/radosfscommon.cc:1219-1226 | a recorded size reads back modulo 2^32, hence unchanged if and only if it is below 2^32 |
| `Hex.FileSizeOrder` | src/FileIO.cc:1135-1163 | below 2^32 the text comparison that guards a size update is the numeric one |
| `Hex.GuardedUpdate` | src/FileIO.cc:1135-1163 | one guarded update leaves the larger of the stored size and the offered one cut to 32 bits |
| `Hex.RecordedSizeIsMaximum` | src/FileIO.cc:1135-1163 | after any sequence of guarded updates, in any order, the recorded size is the maximum of the first size and all offered ones, each cut to 32 bits; below 2^32, of the sizes themselves |
| `Hex.ChunkNames` | src/radosfscommon.cc:901-950 | the inode is recovered from every chunk object's name; two (inode, chunk) pairs share a name exactly when the inodes agree and the chunk numbers agree modulo 2^32 and in being 0, so below 2^32 names are distinct |
| `Hex.WrittenOut` | src/radosfscommon.cc:901-914 | sizes stand as sixteen and chunk numbers as eight lower-case digits after two separators, chunk 0 as the inode alone |
| `ChunkStore.AlignedRewrite` | src/FileIO.cc:698-749 | rewriting a whole chunk leaves exactly one chunk of bytes, changed in the written range only |
| `ChunkStore.WriteBytes` | src/FileIO.cc:751-863 | at every file position a write over the chunks puts its own byte inside its range and keeps the old one elsewhere, in both pool kinds |
| `ChunkStore.WriteKeepsShape` | src/FileIO.cc:751-863 | a write anywhere keeps every chunk object within one chunk, and whole in an aligned pool |
| `ChunkStore.WriteKeepsInv` | src/FileIO.cc:751-863 | a write that ends below 2^32 leaves no byte at or past the recorded size |
| `ChunkStore.TruncateBytes` | src/FileIO.cc:924-1032 | exactly which positions keep their byte over a truncate; all others read zero |
| `ChunkStore.TruncatedByte` | src/FileIO.cc:924-1032 | what a truncate leaves in every chunk in any state, where the recorded size may not cover the data |
| `ChunkStore.TruncateKeepsShape` | src/FileIO.cc:924-1032 | a truncate to any size keeps the form of the chunk objects |
| `ChunkStore.TruncateKeepsInv` | src/FileIO.cc:924-1032 | a truncate to any size below 2^32 leaves no byte at or past the new size and the inode object in place |
| `ChunkStore.RemoveDeletesEverything` | src/FileIO.cc:865-922 | in a sound state, going by the recorded size alone, remove deletes every existing chunk object |
| `ChunkStore.RemoveIsComplete` | src/FileIO.cc:865-922 | in any state remove leaves no object if and only if no chunk lies past the last chunk of the recorded size |
| `FileIO.NothingPastSize` | src/FileIO.cc:751-863 | every position at or past the size reads zero |
| `FileIO.WriteRefines` | src/FileIO.cc:751-863 | a striped write is a splice into the flat file with a zero-filled gap if and only if it ends below 2^32 |
| `FileIO.TruncateRefines` | src/FileIO.cc:924-1032 | a striped truncate cuts or zero-extends the flat file if and only if the new size is below 2^32 and is not a positive multiple of the chunk size with a non-zero byte in the last chunk it keeps |
| `FileIO.TruncateLosesAChunk` | src/FileIO.cc:962-965 | seven bytes in chunks of four, truncated to eight, lose three of them |
| `FileIO.StepKeepsInv` | src/FileIO.cc:681-696 | every refused operation and every accepted one that ends below 2^32 keeps the store sound and the size within the pool's limit |
| `FileIO.StepRefines` | src/FileIO.cc:751-1032 | one operation on the chunks is that operation on the flat file exactly when it is refused, or ends below 2^32 and is not a truncate that loses data |
| `FileIO.RunRefines` | src/FileIO.cc:751-1032 | for every chunk size, pool kind, pool limit and run of writes, truncates and removes: the chunks read as the flat run at every point exactly when every accepted operation ends below 2^32 and no truncate loses data |
| `FileIO.RunReadsFlat` | src/FileIO.cc:751-1032 | runs that end below 2^32 throughout, without a truncate to a positive multiple of the chunk size, read as the flat run |
| `FileIO.RunStaysSound` | src/FileIO.cc:751-1032 | with any truncate sizes, every run whose accepted operations end below 2^32 stays sound |
| `FileIO.FlatRunGoesOn` | src/FileIO.cc:681-696 | one more call on the flat file, case by case: data within the pool's size is spliced in, a size within it cuts or extends, a remove empties, and everything else changes nothing |
| `FileIO.WriteAfterAnyRun` | src/FileIO.cc:751-863 | after any run whose operations end below 2^32, a write within the pool's size and below 2^32 splices its data into the file as the chunks read |
| `FileIO.RemoveAfterAnyRun` | src/FileIO.cc:865-922 | after any such run, with any truncate sizes, remove leaves no object behind |
| `FileIO.LargeFileIsCut` | src/radosfscommon.cc:1219-1226 | one byte written at 2^32 is recorded as a file of size 1, and a remove leaves its chunk behind |
| `FileIO.StepAgrees` | src/FileIO.cc:831-838 | in any state, an operation keeps an aligned and an unaligned store equal as files |
| `FileIO.AlignedAgreesWithInPlace` | src/FileIO.cc:698-749 | over every run the whole-chunk form holds the same file as the in-place form, in chunks of exactly the chunk size, zero past the file's end while operations end below 2^32 |
| `FileIO.File.constructor` | src/FileIO.cc:86-99 | a new inode has no object and size 0, for any pool limit |
| `FileIO.File.WriteChunk` | src/FileIO.cc:831-838 | one chunk changes, by the form of its pool |
| `FileIO.File.WriteChunks` | src/FileIO.cc:796-854 | the loop over chunks, by remaining length and current offset, performs exactly the striped write |
| `FileIO.File.WriteSync` | src/FileIO.cc:681-863 | refuses an empty or too large write with the right code and changes nothing; otherwise every position reads the data written there or what it read before, and from a sound state the flat file is the old one with the data spliced in if and only if the write ends below 2^32 |
| `FileIO.File.TruncateChunks` | src/FileIO.cc:982-1026 | the loop from the last chunk down removes the chunks past the new last one and cuts that one |
| `FileIO.File.CutChunks` | src/FileIO.cc:982-1026 | the loop as a whole: the specified outcome, or none for a count below one |
| `FileIO.File.TruncateTo` | src/FileIO.cc:924-1032 | refuses a size over the limit and changes nothing; otherwise records the size in 32 bits, and from a sound state leaves the flat file cut or zero-extended if and only if the size is below 2^32 and no data is lost, which never happens unless the size is a positive multiple of the chunk size; whatever the uninitialised old size of a new inode holds |
| `FileIO.File.RemoveAll` | src/FileIO.cc:865-922 | fails on a missing inode and changes nothing; otherwise the loop over chunk numbers removes what the recorded size covers, and a sound file is gone |
| `VectorRead.GetInlineAndInodeReadData` | src/FileIO.cc:135-182 | the loop's two request lists are the parts of the intervals below and above the inline capacity |
| `VectorRead.SplitRequest` | src/FileIO.cc:184-210 | the inner loop adds the request's pieces to the groups of their chunks, in order |
| `VectorRead.GetReadDataPerChunk` | src/FileIO.cc:184-210 | the map groups exactly the pieces of all requests by chunk |
| `VectorRead.PartsCover` | src/FileIO.cc:135-182 | each requested byte is in the inline part exactly once when below the capacity, in the inode part exactly once otherwise |
| `VectorRead.PiecesCoverOnce` | src/FileIO.cc:184-210 | each byte of a request is in exactly one of its pieces |
| `VectorRead.ReadIsTiled` | src/FileIO.cc:135-210 | every byte of every interval lies in exactly one piece overall; each piece lies in one chunk at the file position its buffer position stands for |
| `VectorRead.NothingIssued` | src/FileIO.cc:432-459 | a vector read issues no object read if and only if every interval is empty and begins past the inline buffer |
| `ReadCompletion.FillNeverUnderflows` | src/FileIO.cc:227-248 | the unsigned zero-fill length of a short chunk read is never negative |
| `ReadCompletion.DeliveredBytes` | src/FileIO.cc:227-342 | what a piece delivers, stored bytes and fill, are the file's bytes at its position |
| `ReadCompletion.DeliveredCount` | src/FileIO.cc:227-342 | a piece counts at least its bytes below the size, and exactly those if and only if no chunk stores padding in it past the size |
| `ReadCompletion.InPlaceStoresNoPadding` | src/FileIO.cc:751-863 | in an unaligned pool nothing is stored past the size |
| `ReadCompletion.DeliveredContents` | src/FileIO.cc:295-342 | after any callbacks a buffer byte is the file's byte where some piece filled it and untouched elsewhere |
| `ReadCompletion.CompletionOrderIrrelevant` | src/FileIO.cc:295-342 | buffers and accumulated return values are the same for every order of completions |
| `ReadCompletion.ReadDelivers` | src/FileIO.cc:409-462 | a vector read, completed in any order, puts the file's bytes into each buffer; its count is exactly the bytes below the size if and only if no padding is stored in the interval |
| `ReadCompletion.ReadAfterAnyRun` | src/FileIO.cc:184-342 | in an unaligned pool, after any run whose operations end below 2^32 and lose no data, every interval reads exactly min(length, max(0, size - offset)) bytes of the flat file and nothing else is written |
| `ReadCompletion.RunStoresLast` | src/FileIO.cc:697-1020 | in an aligned pool, after any run whose operations end below 2^32, there is an inode exactly when some operation came after the last remove, and then the chunk of the last byte is stored whole |
| `ReadCompletion.ReadDeliversTo` | src/FileIO.cc:409-462 | a vector read of a file whose chunks hold, past the size, just the bytes below e returns in each interval the part below e, the file's bytes and then zeros, and touches nothing else |
| `ReadCompletion.AlignedReadAfterAnyRun` | src/FileIO.cc:184-342 | in an aligned pool, after any run whose operations end below 2^32 and lose no data, with e the end of the chunk of the last byte (0 without inode): every interval reads min(length, max(0, e - offset)) bytes, zeros past the size; that is the flat file's count if and only if the interval is empty, ends at or before the size or starts at or after e, or the size is e |
| `ReadCompletion.AlignedReadReturnsPadding` | src/FileIO.cc:308-318 | a three-byte file in an aligned pool delivers eight bytes |
| `ReadCompletion.ReadOp.CompletePiece` | src/FileIO.cc:304-336 | the copy and the zero fill for one piece store and count what the piece delivers |
| `ReadCompletion.ReadOp.OnReadCompleted` | src/FileIO.cc:295-342 | the callback's loop delivers its pieces one after another |
| `ReadCompletion.RunCallbacks` | src/FileIO.cc:295-342 | the callbacks of all chunks, in an arbitrary order, deliver every piece once |
| `ReadCompletion.ReadVector` | src/FileIO.cc:409-462 | the whole read: split, group, complete in an arbitrary order; each interval gets the file's bytes and nothing past it is touched, with the exact condition for the exact count, which holds in an unaligned pool |
| `ReadStatus.OverrideCodes` | src/FileIO.cc:304-335 | the callback's loop overrides the code of its completion once for each piece of a missing chunk that the size covers |
| `ReadStatus.ChunkCounts` | src/FileIO.cc:319-331 | in every order of issues and callbacks a chunk counts as missing exactly when it is and none of its pieces is covered by the size |
| `ReadStatus.StatusOfRead` | src/FileIO.cc:409-500 | the status is ENOENT if and only if some missing chunk is read by an interval and no interval that reads from it stays within the file there, else 0 |
| `ReadStatus.SingleRead` | src/FileIO.cc:464-500 | a read inside the file succeeds, holes or not; one that goes past the end of the chunk of the last byte fails |
| `ReadStatus.ReadPastEndFails` | src/FileIO.cc:464-500 | three bytes in chunks of four: a read of eight fails though three bytes were delivered |
| `LogText.EscapeObjName` | src/radosfscommon.cc:356-374 | the loop escapes quotes, percent signs and newlines |
| `LogText.UnescapeObjName` | src/radosfscommon.cc:376-421 | the loop is the unescaping function, including its treatment of the last character |
| `LogText.EscapeRoundTrip` | src/radosfscommon.cc:356-421 | unescaping undoes escaping if and only if a backslash occurs at most as the last character |
| `LogText.UnescapedBackslash` | src/radosfscommon.cc:376-421 | an unescaped text has a backslash at most at its end |
| `LogText.EscapeHasNoNewline` | src/radosfscommon.cc:356-374 | escaped text has no newline |
| `LogText.SplitToken` | src/radosfscommon.cc:776-880 | the loop with its quote and key state is the token function |
| `LogText.TokenAt` | src/radosfscommon.cc:776-880 | the scan never goes back and stops at most one past the line |
| `LogLines.PrintField` | src/radosfscommon.cc:497-530 | one metadata field as printed |
| `LogLines.IndexObjectMetadata` | src/radosfscommon.cc:497-530 | the loop prints the name field and every metadata field in order |
| `LogLines.ParseTokens` | src/DirCache.cc:51-92 | the token loop of the parser is the parsing function |
| `LogLines.IndexLineParses` | src/radosfscommon.cc:459-469 | for every name without backslash a printed entry line parses to its operation and name |
| `LogLines.AnyIndexLine` | src/radosfscommon.cc:459-469 | what a printed entry line parses to for every name whatsoever, and that this never has a backslash |
| `LogLines.MetadataLineParses` | src/radosfscommon.cc:497-530 | for all names, keys and values without backslash, with quotes, newlines, percent and equals signs and spaces, a printed metadata line parses to exactly its name, keys and values |
| `MetadataLines.ScanCloses` | src/radosfscommon.cc:776-880 | in a line with no backslash right before a space, an equals sign or its end, no token's key or value ends in a backslash |
| `MetadataLines.NotYielded` | src/DirCache.cc:60-92 | no line whatsoever parses to a name, key or value with a backslash before its last character |
| `MetadataLines.MetadataLineRoundTrip` | src/radosfscommon.cc:497-530 | a printed metadata line, its keys distinct, parses back to its name, keys and values if and only if none of them has a backslash |
| `MetadataLines.BackslashInFields` | src/radosfscommon.cc:376-421 | a key, and a value, with a backslash inside come back without it and the character after it |
| `LogLines.RemoveLineParses` | src/radosfscommon.cc:497-530 | a printed removal line parses to one merged key, which is the meant set of keys if and only if there was one key |
| `LogLines.PrintedLinesHaveNoNewline` | src/radosfscommon.cc:459-530 | no printed line has a newline before its end, whatever the names and values |
| `LogLines.BackslashEatsQuote` | src/radosfscommon.cc:785-807 | a name ending in a backslash parses to the name with a quote and a space instead, whatever comes before |
| `LogLines.IndexLineRoundTrip` | src/DirCache.cc:51-92 | a printed entry line parses back to its name if and only if the name has no backslash |
| `LogLines.WrittenOut` | src/radosfscommon.cc:459-530 | the exact text of an entry line, and of a line that sets or removes one metadata key, for every name, key and value |
| `LogLines.EscapedOut` | src/radosfscommon.cc:356-374 | a quote and a percent sign get a backslash, a newline becomes a percent sign |
| `LogLines.RemovalEndsLine` | src/DirCache.cc:66-75 | whatever follows a removing name field on its line is ignored |
| `LogLines.QuotedToken` | src/radosfscommon.cc:776-880 | a value in single or double quotes, with no such quote in it and no backslash at its end, is read as it is |
| `LogLines.BareToken` | src/radosfscommon.cc:776-880 | a value without quotes ends at the next space |
| `DirLog.ReplayConcat` | src/DirCache.cc:46-133 | replaying a log in two parts split at a line end is replaying it at once |
| `DirLog.ReplayAllSound` | src/DirCache.cc:94-131 | for lines without zero characters in their names, at all times names and contents agree, every line is counted and there are at most as many entries as lines |
| `DirLog.CachedNamesArePlain` | src/DirCache.cc:98-131 | for names without zero characters, the cached names are the plain add-and-remove set all along if and only if every removal line names a live entry |
| `DirLog.ZeroCharacterNotFound` | src/DirCache.cc:98-103 | a live name with a zero character stays cached after the line that removes it |
| `DirLog.UpdateKeepsStep` | src/DirCache.cc:135-179 | an update from a log that extends the part read, or is shorter, leaves the cache equal to a full replay |
| `DirLog.IncrementalEqualsReplay` | src/DirCache.cc:135-179 | over every run of updates on such logs the cache equals replaying the whole last log from empty |
| `DirLog.SameSizeRewriteUnseen` | src/DirCache.cc:153-159 | a log rewritten to the same size goes unseen |
| `DirLog.SameSizeRight` | src/DirCache.cc:153-159 | against a log as long as the part read, an update is right if and only if both texts replay to the same cache |
| `DirLog.CompactionPreservesNames` | src/DirCache.cc:214-230 | without metadata, and without backslashes and zero characters in names, replaying the compacted log from empty gives exactly the cache with one line per entry, and compacting again gives the same bytes |
| `DirLog.FirstLinesDropMetadata` | src/DirCache.cc:125-131 | a log with as many entries as lines, no name with a zero character, carries no metadata |
| `DirLog.CompactWrittenOut` | src/DirCache.cc:214-230 | the exact text of a compacted entry with a metadata key: no prefix, nothing escaped but the name |
| `EntryMetadata.MetadataLeft` | src/DirCache.cc:94-131 | from the lines alone, for names without zero characters: an entry is there exactly when live; a key is in its metadata if and only if the last line about it since the entry's last insertion sets it and does not remove it too, with the value that line gives |
| `EntryMetadata.LiveWasInserted` | src/DirCache.cc:125-131 | a live entry has exactly one last insertion |
| `EntryMetadata.SettingMetadata` | src/radosfscommon.cc:497-530 | a metadata line appended as text to any log of whole lines gives the keys their values and leaves every other key and entry as it was |
| `EntryMetadata.RemovingMetadata` | src/radosfscommon.cc:497-530 | a line that removes one key takes just that key away |
| `RawMetadata.ScanBounded` | src/radosfscommon.cc:776-880 | a token is worth no more than the characters of the line it takes, but for one at the end of a line that does not end in a space |
| `RawMetadata.LineWeight` | src/DirCache.cc:60-92 | a line yields no more metadata, by printed length, than the line is long |
| `RawMetadata.Outweighed` | src/DirCache.cc:94-131 | a replay holds no more metadata than its lines can yield, and less once an entry was inserted by a line that could yield some |
| `RawMetadata.CompactBudget` | src/DirCache.cc:217-230 | all lines of a compacted log, raw newlines included, can yield together just the weight of the metadata printed |
| `RawMetadata.CompactionGivesBack` | src/DirCache.cc:214-230 | for all contents without zero characters in their names, the compacted log replays to the cached contents if and only if no entry has metadata and no name has a backslash |
| `DirCaching.DirObject.Append` | src/radosfscommon.cc:532-583 | appends and marks the log as updated in one step |
| `DirCaching.DirCache.Clear` | src/DirCache.cc:319-329 | back to the fresh cache |
| `DirCaching.DirCache.ChangeMetadata` | src/DirCache.cc:107-122 | the two loops set what a line adds and then remove what it removes |
| `DirCaching.DirCache.Apply` | src/DirCache.cc:94-131 | one parsed line, looked up as a C string, is one replay step on contents, names and line count, the step whose outcome over whole logs is told by `EntryMetadata.MetadataLeft` |
| `DirCaching.DirCache.ParseContents` | src/DirCache.cc:46-133 | the line loop replays the text |
| `DirCaching.DirCache.UpdateFrom` | src/DirCache.cc:135-179 | reads only the new part, or all after a shrink, and fails on a missing object |
| `DirCaching.DirCache.PrintCompact` | src/DirCache.cc:214-230 | the loops over entries and metadata print the compacted log in key order |
| `DirCaching.DirCache.CompactDirOpLog` | src/DirCache.cc:200-258 | whatever others append meanwhile, the rewrite takes effect exactly when nothing came between clearing the flag and the rewrite; the read mark moves to the end in either case |
| `CompactProtocol.BetweenClearAndRewrite` | src/DirCache.cc:205-249 | in every interleaving after the flag is cleared, the log only grows by the committed lines and the flag stays clear exactly when no atomic append committed |
| `CompactProtocol.RewriteOnlyWhenQuiet` | src/DirCache.cc:232-249 | the rewrite replaces the log if no atomic append committed since the flag was cleared, and otherwise leaves the log with every committed line |
| `CompactProtocol.StepKeepsInv` | src/DirCache.cc:200-258 | every careful step of any client keeps the log replaying to the true names and the cache consistent with it |
| `CompactProtocol.NoNameIsLost` | src/DirCache.cc:200-258 | over every careful interleaving with any number of compactions, lines appended at its very end included, the log replays to exactly the names that the lines among the actions leave on those it began with, and a cache that may be used has just these names once updated |
| `CompactProtocol.RoundIsRun` | src/DirCache.cc:200-258 | a compaction with lines coming in at every point of it is a run of the protocol |
| `CompactProtocol.Compact` | src/DirCache.cc:200-258 | the code of a compaction on the directory object leaves the log and the cache of that run |
| `CompactProtocol.Refreshed` | src/DirCache.cc:135-179 | an update of the cache object is the protocol's update |
| `CompactProtocol.AppendEntry` | src/radosfscommon.cc:532-583 | the atomic append of an entry line is the protocol's append, flag included |
| `CompactProtocol.FreshWorld` | src/DirCache.cc:29-35 | a new directory, and any log of plain entries with a new cache, is a state those runs can start from |
| `CompactProtocol.RoundLeaves` | src/DirCache.cc:200-258 | what one compaction leaves in the log and in the cache, for any lines before the clearing, before the rewrite and after it |
| `CompactProtocol.SurvivesRound` | src/DirCache.cc:200-258 | the names survive a compaction if and only if it is cancelled, or the lines before its rewrite leave no trace once those after it are in |
| `CompactProtocol.SurvivesNextRound` | src/DirCache.cc:249-257 | they survive the next compaction by the same cache if and only if all those lines together leave the names unchanged |
| `CompactProtocol.LostBeforeClearing` | src/DirCache.cc:203-212 | lines appended between update and clearing survive a compaction if and only if together they leave the names unchanged |
| `CompactProtocol.MoveLostAfterClearing` | src/radosfscommon.cc:1260-1350 | lines appended by file moves, which do not set the flag, between clearing and rewrite survive if and only if together they leave the names unchanged |
| `CompactProtocol.LostAfterCancelling` | src/DirCache.cc:249-257 | lines that cancel a compaction survive it, and survive the next one by the same cache if and only if together they leave the names unchanged |
| `CompactProtocol.LostAfterRewriting` | src/DirCache.cc:249-255 | so do lines appended between the rewrite and the reading of the new size |
| `PriorityCaching.EvictionIsLeastRecentlyUsed` | src/Filesystem.cc:209-228 | the survivors of an eviction are the longest run of most recently used directories that fits the low mark |
| `PriorityCaching.AdjustedIsTrimmed` | src/Filesystem.cc:209-228 | over the maximum and over 1, exactly the longest run of most recently used directories of size at most max(1, low mark) is left; otherwise everything |
| `PriorityCaching.AdjustedFits` | src/Filesystem.cc:209-228 | after an adjustment the size is at most max(1, maximum) |
| `PriorityCaching.SizeAlwaysFits` | src/Filesystem.cc:172-228 | after every call of every run of updates, removals and maximum changes the size is at most max(1, maximum) |
| `PriorityCaching.PriorityCache.constructor` | src/Filesystem.cc:75-80 | an empty well-formed cache |
| `PriorityCaching.PriorityCache.Unlink` | src/Filesystem.cc:107-138 | the pointer work takes one node out and leaves a well-formed doubly linked list of the others in order |
| `PriorityCaching.PriorityCache.StepAside` | src/Filesystem.cc:146-161 | a node that is not the head leaves its neighbours linked to each other, and the tail right |
| `PriorityCaching.PriorityCache.PutFirst` | src/Filesystem.cc:163-169 | the node becomes the head of a well-formed list, after the others in their order |
| `PriorityCaching.PriorityCache.MoveToFront` | src/Filesystem.cc:140-170 | a listed or new node ends up as head, the others keep their order |
| `PriorityCaching.PriorityCache.RemoveNode` | src/Filesystem.cc:107-138 | list, map and running size lose exactly this node |
| `PriorityCaching.PriorityCache.RemoveCache` | src/Filesystem.cc:97-105 | the other directories stay in their order |
| `PriorityCaching.PriorityCache.CurrentSize` | src/Filesystem.cc:209-228 | running size plus map size is the total of entries plus one each |
| `PriorityCaching.PriorityCache.AdjustCache` | src/Filesystem.cc:209-228 | the loop from the tail terminates; when the size was over the maximum and over 1 the new order is the longest suffix of the old one of size at most max(1, low mark), otherwise it is unchanged |
| `PriorityCaching.PriorityCache.SetMaxSize` | src/Filesystem.cc:2050-2055 | a new maximum trims the order at once, as above |
| `PriorityCaching.PriorityCache.UpdateWith` | src/Filesystem.cc:172-207 | a directory too large for the cache changes nothing; any other goes behind all the others, with its new count, and that order is trimmed |
| `PriorityCaching.PriorityCache.Perform` | src/Filesystem.cc:97-228 | each call on the linked structure is the step of a run |
| `Recency.OrderIsByLastUse` | src/Filesystem.cc:97-228 | after every run of uses, removals and new maxima, told from the calls: the order is by last use that was not too large, each with the count given then and not removed since, and nothing used after a directory that is there and not removed is missing |
| `Recency.JustUsedIsLast` | src/Filesystem.cc:172-207 | the directory just used comes last, and stays if it alone fits the low mark |
| `Paths.ParentOfRendered` | src/radosfscommon.cc:339-354 | the text of a path's parent is the parent's text |
| `Paths.RenderInjective` | src/radosfscommon.cc:586-595 | different paths have different texts |
| `Paths.PrefixOfRendered` | src/Dir.cc:381-389 | the textual prefix test of rename means "inside itself" for every pair of paths |
| `Namespace.AncestorsExist` | src/Dir.cc:121-178 | every ancestor of an existing directory exists |
| `Namespace.LoggedNames` | src/radosfscommon.cc:459-469 | a printed and parsed line is the step on the names with the name that comes out of the log, for every name without zero character |
| `Namespace.NeverListed` | src/radosfscommon.cc:376-421 | no log whatsoever lists a subdirectory with a backslash in its name |
| `Namespace.BackslashNames` | src/radosfscommon.cc:376-421 | a directory named a, backslash, b is logged as a, and one named by a single backslash as the empty name |
| `Namespace.SoundPathsAreClean` | src/Dir.cc:121-178 | in a sound namespace no path has a backslash |
| `Namespace.ListedWhenClean` | src/Dir.cc:121-178 | a directory just created is listed under its own name if and only if the name has no backslash |
| `Namespace.MadeKeepsBase` | src/Dir.cc:121-178 | creating a directory of any name keeps the tree of directories, their inodes and their logs together |
| `Namespace.MadeKeepsInv` | src/Dir.cc:121-178 | creating a directory keeps every log listing exactly the subdirectories if and only if the new name has no backslash |
| `Namespace.RemovedKeepsInv` | src/Dir.cc:920-983 | removing a directory without subdirectories keeps the namespace sound |
| `Namespace.LogKeepsFiles` | src/radosfscommon.cc:459-469 | a line about a subdirectory without backslash leaves the files of every directory as they were |
| `Namespace.RelocationIsBijective` | src/Dir.cc:278-318 | a relocation keeps every inode, merges no two paths and invents none |
| `Namespace.PartlyOneMore` | src/Dir.cc:278-318 | moving one more subtree extends the part of the tree that has moved |
| `Namespace.PartlyAll` | src/Dir.cc:278-318 | when all subdirectories have moved, moving the path object completes the relocation |
| `Namespace.RenamedLog` | src/Dir.cc:391-404 | the lines of a rename go to the two parents' logs and to no other |
| `Namespace.RenamedNames` | src/Dir.cc:391-404 | the two log lines of a rename change exactly one name in each of the two parents |
| `Namespace.RenamedKeepsInv` | src/Dir.cc:320-419 | relocation and the two lines together keep the namespace sound if and only if the new name has no backslash |
| `Trees.MadeView` | src/Dir.cc:121-178 | creating a directory shows as the tree with one more directory without files |
| `Trees.EmptyIsVacant` | src/Dir.cc:950-955 | in a sound namespace a directory's log lists nothing if and only if the tree has no file and no directory below it |
| `Trees.CarriedView` | src/Dir.cc:278-318 | relocating the path objects carries every directory of the subtree to its new place with its files |
| `Trees.CarriedBack` | src/Dir.cc:278-318 | carrying a subtree to a free place and back gives the tree again |
| `Directories.Client.constructor` | src/Filesystem.cc:896-917 | a sound filesystem with the root only |
| `Directories.Client.GetDirInode` | src/Filesystem.cc:375-406 | answers from the path cache or the store alike and caches only what the store holds |
| `Directories.Client.MakeDirsRecursively` | src/Dir.cc:121-178 | exactly the missing directories along the path come into being and every inode stays; a sound namespace stays sound if and only if the path has no backslash, and then the tree is the old one grown by that path |
| `Directories.Client.Create` | src/Dir.cc:819-912 | the code for each of the four cases of target, parent and mkpath, exactly when the namespace stays sound, and that the tree is then the result of the command on the old tree |
| `Directories.Client.RemoveDir` | src/Dir.cc:920-983 | refuses a missing directory and one whose log lists names but not the empty one, otherwise removes exactly it, its log and its entry; a sound namespace stays sound, its tree less the directory when that had no file and no directory below it and the same otherwise |
| `Directories.BackslashChildIsOrphaned` | src/Dir.cc:954-960 | a directory whose only child is named by a backslash counts as empty, and removing it leaves the child without a parent |
| `Directories.Client.MoveDirTreeObjects` | src/Dir.cc:278-318 | the recursion terminates and relocates the whole subtree: old prefix replaced by new, nothing lost, duplicated or overwritten |
| `Directories.Client.MoveObject` | src/Dir.cc:308-318 | the path object and its cache entry move together |
| `Directories.Client.RenameDir` | src/Dir.cc:320-419 | refuses a missing source or parent, the root as a target, an existing target and a target inside the source; otherwise relocates the subtree; the namespace stays sound if and only if the new name has no backslash, and then the tree is the old one with the subtree and its files carried over |
| `Directories.Client.Perform` | src/Dir.cc:819-983 | one command of any kind keeps the namespace sound if and only if it gives no directory a name with a backslash, and then does to the tree what it does to a plain tree of directories and files |
| `Directories.Client.AnyRun` | src/Dir.cc:819-983 | any run of create, mkpath, remove and rename leaves the tree that the same commands leave on a plain tree of directories and files, up to the first command that names a directory with a backslash, which makes the namespace unsound; while sound, ancestors exist, each text log lists exactly the subdirectories, and every cached pair is one the store holds |
| `Links.MakeRealPath` | src/FsObj.cc:43-88 | the walk up finds the deepest existing ancestor; a link there is replaced by its recorded text, to which the next name is glued when the text does not end in a separator; a file there is an error |
| `Links.RewriteIsTextual` | src/FsObj.cc:66-74 | that rewrite of names is the one on text: the ancestor's text is erased from the front and the link's recorded text put there |
| `Links.RewriteKeepsMeaning` | src/FsObj.cc:43-88 | a rewrite at a link to a directory keeps where a walk from the root, following chains of links, ends, and whether it meets a link to a file |
| `Links.RewriteMakesProgress` | src/FsObj.cc:90-111 | a rewrite, gluing or not, that has to go on moved to the next link of a chain or left a shorter suffix to resolve |
| `Links.StopsAtWalk` | src/FsObj.cc:90-111 | a path that needs no rewrite is where the walk ends |
| `Links.StopsResolved` | src/FsObj.cc:90-111 | no existing ancestor of such a path is a link |
| `Links.SoundLinksResolve` | src/FsObj.cc:498-530 | links as they are made, to existing real directories and files, satisfy the conditions for the walk |
| `Links.AcyclicChainsEnd` | src/FsObj.cc:90-111 | when no chain of links returns to itself every chain ends, so that the walk is defined |
| `Links.EndsUnlessCyclic` | src/FsObj.cc:90-111 | where the directory part of every link's recorded text exists, or is missing but not below a link, the loop ends on every path if and only if no chain of links returns to itself |
| `Links.EndsUnlessReturning` | src/FsObj.cc:90-111 | whatever the links record, the loop ends on every path if and only if no link leads back to below itself |
| `Links.MeaningKept` | src/FsObj.cc:90-111 | a loop that ends, on a walk that meets no link to a file before the last name, ends where the walk ends |
| `Links.MeaningLost` | src/FsObj.cc:66-74 | where links name what exists, a loop that ends on a walk that meets such a link ends elsewhere |
| `Links.FoundMeans` | src/FsObj.cc:90-125 | where links name what exists, the loop ends where the walk ends if and only if no link to a file is met before the last name |
| `Links.SetPath` | src/FsObj.cc:90-125 | whenever no link leads back to itself the loop ends, at a path with no link among its ancestors, with an error below a file; where links name what exists that is where the walk ends if and only if no link to a file is met before the last name |
| `Links.FileLinkIsGlued` | src/FsObj.cc:66-74 | with a file f and a link L to it, a path x below L becomes the path fx beside f, and is taken without an error |
| `Links.SelfFileLinkEnds` | src/FsObj.cc:66-74 | a link recorded as its own name without separator is left after one rewrite |
| `Links.SelfLinkNeverResolves` | src/FsObj.cc:90-111 | a link naming itself, which an object opened before its directory was removed can make, is rewritten for ever |
| `Links.LinkBelowItselfNeverResolves` | src/FsObj.cc:90-111 | a link naming a missing place below itself makes the path longer with every rewrite |
| `LinkRecord.TargetComesBack` | src/radosfscommon.cc:471-495 | the target's text comes back from the printed record if and only if it has no quote without a backslash before it and does not end in a backslash; up to such a quote it comes back cut |
| `LinkRecord.QuotedDirectoryIsCut` | src/radosfscommon.cc:249-304 | a link to the directory a"b comes back as one to the file a |
| `InlineBuffering.ComputeBytes` | src/FileInlineBuffer.cc:128-347 | what each operation means byte by byte: a write overlays and never shortens, a truncate cuts or zero-fills up to the capacity, a fill zero-fills to it |
| `InlineBuffering.ComputesWhen` | src/FileInlineBuffer.cc:128-347 | exactly when an operation has something to commit |
| `InlineBuffering.Buffer.Commit` | src/FileInlineBuffer.cc:176-196 | the guarded update replaces the value exactly when it is still the one read |
| `InlineBuffering.Buffer.TryWrite` | src/FileInlineBuffer.cc:150-197 | one turn of the write loop commits the computed contents or nothing |
| `InlineBuffering.Buffer.TryFill` | src/FileInlineBuffer.cc:220-259 | one turn of the fill loop; contents past the capacity make it throw and change nothing |
| `InlineBuffering.Buffer.TryTruncate` | src/FileInlineBuffer.cc:296-346 | one turn of the truncate loop, which stops without a commit when the size is already right |
| `InlineBuffering.StepIsSequential` | src/FileInlineBuffer.cc:128-347 | every read, commit and cancelled commit of any client keeps the stored contents equal to the committed operations in order |
| `InlineBuffering.CommitsAreSequential` | src/FileInlineBuffer.cc:128-347 | in every interleaving of writers, fillers and truncators no update is lost: the contents are the committed operations applied one after another |
| `InlineBuffering.TurnCommits` | src/FileInlineBuffer.cc:150-197 | a client that reads at one step and commits at another, among any others: its operation becomes the last commit and its outcome on what it read is stored if the value is still the one read; otherwise nothing changes, and another client's commit took effect in between |
| `InlineBuffering.UndisturbedCommits` | src/FileInlineBuffer.cc:150-197 | with no commit in between, the operation always gets in |
| `InlineBuffering.MayCommit` | src/FileInlineBuffer.cc:150-197 | after its read a client can commit at any time if and only if its operation has something to write |
| `InlineBuffering.CommitsOnlyGrow` | src/FileInlineBuffer.cc:128-347 | commits are never taken back |
| `InlineBuffering.Attempt` | src/FileInlineBuffer.cc:128-347 | one turn of the loop of any operation on the stored value is the commit step of that client |
| `InlineBuffering.CapacityKept` | src/FileInlineBuffer.cc:140-167 | the length stays within the capacity all along if and only if every committed write satisfies offset + min(length, capacity) <= capacity |
| `InlineBuffering.WriteOverruns` | src/FileInlineBuffer.cc:140-167 | two bytes written at 1 overrun a buffer of two |
| `InlineFile.WriteShows` | src/FileIO.cc:751-863 | a good write, split between buffer and chunks, is the write to the flat file |
| `InlineFile.TruncateShows` | src/FileIO.cc:926-1030 | a truncate of buffer and chunks is the truncate of the flat file if and only if it is below 2^32 and loses no byte behind the buffer |
| `InlineFile.StepShows` | src/FileIO.cc:751-1030 | one operation keeps buffer and chunks together the flat file, of the size reported, if and only if it is good: below 2^32, a write inside the buffer satisfying offset + min(length, capacity) <= capacity and not filling the buffer to the brim while a smaller size is recorded, a truncate losing nothing behind the buffer |
| `InlineFile.RunShows` | src/FileIO.cc:751-1030 | for every capacity below 2^32 and every run of writes, truncates and removes, the file is the flat file all along if and only if every operation is good |
| `InlineFile.ShownSize` | src/File.cc:828-853 | the size reported is then the flat file's |
| `InlineFile.OldSizeIsReported` | src/File.cc:828-853 | after a truncate to two and a write of eight into a buffer of eight, eight bytes are there and two are reported |
| `InlineFile.EntrySizeRight` | src/Filesystem.cc:559-571 | the stat of many files reports that size too if and only if the file does not just fill its buffer with no size recorded |
| `InlineFile.FullBufferLooksEmpty` | src/Filesystem.cc:559-571 | eight bytes in a buffer of eight are reported as an empty file |
| `InlineFile.InlineReadRight` | src/FileIO.cc:250-293 | the inline part of a read copies nothing from behind the contents, and counts exactly the file's bytes, if and only if it lies inside the file or the file is empty |
| `InlineFile.ShortBufferOverread` | src/FileIO.cc:266-273 | with three bytes in a buffer of eight a read of eight returns eight |
| `AsyncOps.FirstErrorIsEarliest` | src/AsyncOp.cc:69-91 | an error is reported exactly when a completion has one, and it is the earliest issued |
| `AsyncOps.AsyncOp.AddCompletion` | src/AsyncOp.cc:110-120 | adds a completion and counts it |
| `AsyncOps.AsyncOp.SetPartialReady` | src/AsyncOp.cc:129-135 | one fewer to wait for, never below 0 |
| `AsyncOps.AsyncOp.SetReady` | src/AsyncOp.cc:122-127 | nothing to wait for |
| `AsyncOps.AsyncOp.SetOverriddenReturnCode` | src/AsyncOp.cc:137-142 | the code of one completion is replaced |
| `AsyncOps.AsyncOp.Collect` | src/AsyncOp.cc:69-91 | the inner loop lets every completion go and leaves the first failure in issue order, an overriding code standing for its completion's own |
| `AsyncOps.AsyncOp.WaitForCompletion` | src/AsyncOp.cc:49-108 | past the busy wait, both loops end and the result is the first code in issue order that is neither 0 nor "in progress", else 0, where an overriding code stands for its completion's own |
| `AsyncOps.CallbackDecides` | src/AsyncOp.cc:137-158 | in every reachable state a chunk whose callback gave overriding codes counts with the last of them, whatever its completion returned, and any other with its completion's code |
| `AsyncOps.CountedIsRecorded` | src/AsyncOp.cc:137-158 | the recorded codes are those the callbacks gave |
| `AsyncOps.FinishRead` | src/FileIO.cc:464-500 | a read that has issued everything and seen every callback reports the first of its chunks' counts that is a failure, else 0 |
| `AsyncOps.StepCounts` | src/AsyncOp.cc:110-142 | issuing and callbacks, in any order, keep the counter at issued minus finished |
| `AsyncOps.ReachableCounts` | src/FileIO.cc:325-406 | in every reachable state of a read the counter is -1 before the first issue and then issued minus finished |
| `AsyncOps.ReadWaitsForEveryCallback` | src/FileIO.cc:464-500 | once all chunk reads are issued, the wait lets the reader through if and only if every callback has run |
| `AsyncOps.EmptyReadNeverReady` | src/FileIO.cc:409-462 | a read that issues nothing never becomes ready |
| `AsyncOps.EndsWhenIssued` | src/AsyncOp.cc:49-108 | a read can get past its wait if and only if it issues something |
| `AsyncOps.ReadEndsUnlessEmpty` | src/FileIO.cc:409-462 | a synchronous vector read comes back if and only if it has no interval at all, which is refused, or one that is not empty or begins inside the inline buffer |

## Left out

- FileIO.File.WriteSync: for an inode without inline buffer and chunk numbers below 2^32, from where on object names coincide (`Hex.ChunkNames`); buffer and chunks together are modelled on values (`InlineFile.RunShows`); back links, time stamps and the asynchronous form are not modelled.
- FileIO.File.TruncateTo: for an inode without inline buffer and chunk numbers below 2^32; on chunks that an incomplete remove left without their inode object it states the size only, since an uninitialised variable decides the rest.
- FileIO.AlignedAgreesWithInPlace: for chunk numbers below 2^32.
- ReadCompletion.ReadVector: for an inode without inline buffer; the inline part of a read is split off (`VectorRead.ReadIsTiled`) and its copying modelled apart (`InlineFile.InlineReadRight`); the narrowing of counts to 32 bits is not modelled.
- ReadStatus.StatusOfRead: for an inode without inline buffer; an existing chunk object reads without an error.
- Directories.Client.RemoveDir: not for the root, whose parent path is empty: the code then reads before the beginning of an empty string (src/radosfscommon.cc:590).
- Directories.Client.RenameDir: not in a namespace already made unsound by a backslash, where the code uses the stat of a directory that does not exist; one metadata pool, no links below the renamed directory, no quotas.
- CompactProtocol.NoNameIsLost: entry lines of names without backslash and zero character only; metadata does not survive a compaction (`RawMetadata.CompactionGivesBack`).
- InlineBuffering.CommitsAreSequential: the retry loops are steps of a state machine, since a client may be cancelled for ever; the in-memory variant of the buffer is not modelled.
- AsyncOps.AsyncOp.WaitForCompletion: the busy wait is its precondition; the user's callback is not modelled.
- PriorityCaching.PriorityCache.AdjustCache: the low mark, a floating-point fraction of the maximum, is any number up to the maximum.
- LogText.SplitToken: the comparison-operator result, used by searches only, is not modelled.
- DirLog.CachedNamesArePlain: for names without zero characters; so are `DirLog.ReplayAllSound`, `RawMetadata.CompactionGivesBack` and the namespace, whose names have none. A lookup cuts a name at its zero character, which the replay models.
- LinkRecord.TargetComesBack: the target field, which is printed first, alone; what a cut target does to the fields after it is not modelled.
- The read mark's being a 32-bit integer, and file positions that overflow 64 bits.
- Clocks, threads, mutexes, lock leases and retry delays: each object operation is one atomic step, each file operation on chunks one step of its client.
- Random identifiers: new inodes get numbers not in use.
- Several metadata pools, creating, moving and removing files and links in the namespace (its trees carry files that are there), path sanitising and the maximum path length.
- Permissions, time stamps, extended attributes, quotas, searches, the consistency checker, the logger, the benchmark, the Python bindings and hash64.
