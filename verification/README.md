# A model of the OpenZL extension for DuckDB

The extension stores tables as OpenZL archives. Most of it is glue between DuckDB's parquet writer and the OpenZL
library, but it contains seven algorithms of its own. This project models them in Dafny and proves what they are for.

- **Chunked COPY and the chunk container** (`Copy`, `CopySink`, `RowGroups`, `ArchiveWriter`, `Container`, `ArchiveRead`, `Paths`,
  `Bytes`, `Decimal`). A COPY stages parquet in a file or in memory, rotates to a new chunk when the staged size reaches
  the chunk size, compresses each chunk (perhaps falling back to the generic graph), and appends the frame to an archive
  that holds its first frame back and only becomes a container on the second. The main theorem, `CopySink.CopyTable`,
  runs the sink's code from the first batch to the finished file: for every batch sequence, chunk size and pattern of
  compressor failures, if COPY returns normally then globbing the archive, opening each path and decoding the chunks in
  order gives exactly the rows sunk, in order.
- **The shared archive cache** (`ArchiveCache`, `CacheSharing`), a concurrent protocol: openers stat outside the mutex, while other
  threads open and drop handles and rewrite the file. `ArchiveCache.CacheIsLinearizable` says exactly when every handle
  shows contents the archive had between its open's stat and its return; `CacheSharing.HandlesShareBetweenRewrites` says
  who shares a buffer and counts decompressions.
- **Writable virtual files** (`MemoryFile`, `FileHandle`, `Staging`): reads, writes and truncates against a history of
  operations, the atomic publish of `Close()`, and the isolation of concurrent COPYs in the staging registry.
- **openzl_promote and openzl_restore** (`Promote`, `PromoteTable`): the verdict loop over the flat row of column
  aggregates, the casts, and the inverse that pads with zeros, composed over whole tables.
- **In-place repacking** (`Repack`), with parallel workers, a commit loop that runs beside them, and a crash between any
  two effects.
- **Training-sample selection** (`Samples`).

Code that changes state is modelled by classes and methods with loops (`ChunkedArchiveWriter`, `CopySink`,
`OpenzlFileHandle`, `BufferFileSystem`, `CacheTable`, and the readers and loops in the other modules). Each is proved
against a function or predicate, and the properties are proved about those. 64-bit arithmetic is written out with its
wrap-around (`Bytes.Add64`, `Bytes.Sub64`, `Bytes.Mul64`) wherever the source computes sizes, offsets and positions.

## Assumptions

- OpenZL is a pair of functions. Compressing may fail, for any reason; decompressing a successfully compressed frame
  gives its input back. A plain frame never begins with the container magic `OZLCHNK1`: the reader tells the two formats
  apart only by that.
- DuckDB's parquet writer is a record of functions over a global and a local state. Its finished bytes decode to the rows
  it was handed, in order. Nothing is assumed about how many of the rows are visible in the staged file before that.
- Only for the bound on chunk sizes: on the chunks that can be made of the COPY's own batches, the writer hides at most B
  bytes from the staged file, takes in at most G bytes per batch, and adds at most T when it finishes (`Copy.Bounded`).
  `RowGroups` has a writer that meets this and the previous assumption.
- Archives are smaller than 2^64 bytes, fewer than 2^64 staging paths are generated, and the sizes of the training
  samples add up to less than 2^64.
- The sink runs on one thread (src/openzl_extension.cpp:750-752), and writes to the local disk succeed there.
- The archive path of a COPY carries no `#chunk=N` suffix of its own (`ArchiveRead.ChunkSuffixHidesFile` shows why), and
  an archive has at most 10^15 chunks (`Paths.ChunkNameRoundTrip` shows that chunk 10^15 cannot be addressed).
- In the cache, `stat` succeeds and decompression reads one version of the file.
- For repacking: rows name distinct files, sources end in `.parquet`, archive names are not in use by other rows, no other
  process touches these files, and equal fingerprints mean equal rows.

## Where the code and its comments differ

- The comment at src/openzl_file_system.cpp:41-42 says a rewritten archive is never served from a stale buffer. That
  holds if and only if no archive's stat comes back after other contents (`NeverReverts`). A file that is replaced and
  then restored with its old size and modification time breaks it: an opener stats the first version, decompresses the
  second and stores it under the first one's stat, and an opener of the restored file gets the second version's bytes
  (`ArchiveCache.RestoredFileIsServedStale`), although no two different contents ever share a stat.
- The comment at src/openzl_extension.cpp:971 says a chunk is never empty. The first chunk of any table with rows to sink
  is empty exactly when a fresh parquet file already reaches the chunk size (`Copy.EmptyFirstChunk`), which does happen
  (`RowGroups.EmptyChunkHappens`), and the only chunk of an empty table is empty.
- The guards at src/openzl_file_system.cpp:205 and 229 add location and length in 64 bits. They protect the copy if and
  only if that sum does not wrap (`FileHandle.GuardIsExact`, `FileHandle.WrappingAccessPasses`).
- The count of fallback chunks also moves when the generic retry fails too and the COPY with it
  (`CopySink.CompressChunkWithFallback`, and the failure case of `CopySink.CopyTable`).

## Model

| member | source | states |
|---|---|---|
| CopySink.CopyTable | src/openzl_extension.cpp:853-1004 | One whole COPY by the sink's code. It returns normally exactly when the abstract COPY has a result; then reading the archive back gives the concatenated batches, the archive is the only file changed, the staging registry is as before, and the fallback counter rose by the number of chunks whose trained attempt failed. After a failure the archive path holds nothing if two chunks were finished by then and what it held before if not, and the counter has counted the finished chunks' fallbacks and the failing chunk's retry |
| CopySink.CopySink.WriteTable | src/openzl_extension.cpp:853-1004 | The same run on a started sink: its result, the final files and buffers, the counter, and the clean-up after a failure at any point |
| CopySink.CopySink.constructor | src/openzl_extension.cpp:948-964 | A COPY starts with a fresh chunk and local state and an archive without frames, even over a left-over staging file |
| CopySink.CopySink.ChooseTarget | src/openzl_extension.cpp:863-864 | The staging target is a generated path nobody uses, or the staging file beside the archive |
| CopySink.CopySink.StartChunk | src/openzl_extension.cpp:852-868 | A fresh staging target nobody else uses holds the fresh parquet file; the finished chunks are untouched |
| CopySink.CopySink.StagedBytes | src/openzl_extension.cpp:938-946 | The size the rotation looks at is that of the visible bytes of the chunk in progress |
| CopySink.CopySink.Receive | src/openzl_extension.cpp:982-983 | The batch goes to the open chunk, staging follows, and the invariant over writer, staging and archive is kept |
| CopySink.CopySink.Combine | src/openzl_extension.cpp:986-993 | The local rows move into the chunk without changing what has been sunk |
| CopySink.CompressChunkWithFallback | src/openzl_extension.cpp:870-884 | The frame is the trained one, or the generic one after a failure when the option allows; without the option or a trained compressor the counter stays, otherwise it moves exactly if the trained attempt fails or the chunk is over the limit |
| CopySink.CopySink.TakeStaged | src/openzl_extension.cpp:893-929 | Staging gives up exactly the staged bytes and is empty afterwards, also when an oversized staging file is refused |
| CopySink.CopySink.CompressStaged | src/openzl_extension.cpp:888-929 | The finished parquet bytes leave staging on success and on failure, and the result is the abstract encoding of the chunk |
| CopySink.CopySink.EndChunk | src/openzl_extension.cpp:886-936 | The chunk's frame is appended to the archive, or nothing but staging and the counter changes; nothing stays staged |
| CopySink.CopySink.Rotate | src/openzl_extension.cpp:974-981 | Ending one chunk and starting the next loses nothing: the run becomes the finished chunks and a fresh open chunk |
| CopySink.CopySink.Sink | src/openzl_extension.cpp:966-984 | One sink call refines one step of the abstract COPY, failures included |
| CopySink.CopySink.OthersMove | src/openzl_file_system.cpp:372-392 | Whatever other COPYs do to their own staging entries between two calls, this COPY's chunk in progress and staged bytes are as before and its invariant holds |
| CopySink.CopySink.SinkTable | src/openzl_extension.cpp:966-984 | All sink calls of a COPY refine its abstract run; the counter equals the number of fallbacks among the finished chunks, plus the retry of the failing one; a failure leaves the state before the failing call |
| CopySink.CopySink.Finalize | src/openzl_extension.cpp:995-1004 | The last chunk ends and the archive file holds all frames; a failing last chunk leaves nothing staged |
| CopySink.CopySink.Destroy | src/openzl_bridge.cpp:135-139 | A failed COPY removes its archive exactly if a second chunk had opened it |
| CopySink.RetriesCountFallbacks | src/openzl_extension.cpp:881-883 | When a chunk succeeds, the counter moved by one exactly if the chunk is recorded as fallen back |
| CopySink.SinkCountsFallbacks | src/openzl_extension.cpp:966-984 | Per sink call, the counter's movement is the change in the number of fallen-back chunks |
| CopySink.NothingCounted | src/openzl_extension.cpp:877-881 | Without the option or without a trained compressor the fallback counter stays, in a COPY that works and in one that fails |
| CopySink.FailedPrefix | src/openzl_extension.cpp:966-984 | A COPY that fails on a prefix of its batches fails as a whole and gets no further than that prefix |
| Copy.SinkConserves | src/openzl_extension.cpp:966-984 | Conservation: archived batches followed by the open chunk's batches are the batches sunk so far, the writer holds the open chunk's rows, and each frame decompresses and decodes to its batches |
| Copy.EndChunkConserves | src/openzl_extension.cpp:886-936 | Finishing the open chunk moves its batches to the archive, faithfully |
| Copy.SinkBatchConserves | src/openzl_extension.cpp:966-984 | One sink call, with or without rotation, keeps conservation |
| Copy.EncodeChunkDecompresses | src/openzl_extension.cpp:870-884 | Whichever graph produced the frame, it decompresses to the staged bytes and is not taken for a container |
| Copy.EncodeChunkOutcome | src/openzl_extension.cpp:870-884 | On options and attempts: over the limit no frame; without the fallback option or a trained compressor exactly the frame of the one attempt; with both, the trained frame, else the generic one, else none |
| Copy.CopyThenRead | src/openzl_file_system.cpp:103-162 | End to end on values: an archive file holding the frames of a successful COPY reads back as exactly the rows sunk |
| Copy.ChunkShape | src/openzl_extension.cpp:966-1004 | At least one chunk; exactly one, with no batch in it, for empty input; exactly one for chunk size 0; no chunk after the first is empty |
| Copy.SinkShape | src/openzl_extension.cpp:966-984 | The same facts as an invariant over the run |
| Copy.CutsAreExact | src/openzl_extension.cpp:974-984 | Every chunk before the last had reached the chunk size when it was ended, and no chunk had reached it before its last batch |
| Copy.OneChunkExactly | src/openzl_extension.cpp:966-984 | A table goes into one chunk if and only if neither a fresh file nor any batches short of the whole table reach the chunk size |
| Copy.DecompressesWholeExactly | src/openzl_bridge.cpp:201-221 | An archive decompresses as a whole, to a parquet file with all the rows, if and only if the table goes into one chunk |
| Copy.FurthestDecides | src/openzl_extension.cpp:966-1004 | The state a COPY gets to is that after a prefix of its batches, and the COPY fails if and only if ending the chunk open there fails |
| Copy.EmptyFirstChunk | src/openzl_extension.cpp:971-981 | For every table with at least one batch, the first chunk is empty if and only if a fresh file reaches the (nonzero) chunk size |
| Copy.NoChunkIsEmpty | src/openzl_extension.cpp:971-981 | No chunk is empty if and only if there is a batch and a fresh file does not reach the chunk size |
| RowGroups.EmptyChunkHappens | src/openzl_extension.cpp:971-981 | For every table there is a lawful writer, codec and chunk size under which the COPY succeeds with an empty first chunk |
| Copy.UnchunkedDecompresses | src/openzl_bridge.cpp:201-221 | With chunk size 0 the archive decompresses as a whole to one parquet file with all the rows, as repacking relies on |
| Copy.OpenIsReached | src/openzl_extension.cpp:966-984 | The open chunk is the fresh one with some of this COPY's batches sunk into it, which is where the bound's assumption is needed |
| Copy.VolumeBound | src/openzl_extension.cpp:938-984 | If, on the chunks that can be made of this COPY's batches, the writer hides at most B bytes, grows by at most G per batch and adds at most T at the end, every chunk handed to a compress call has at most max(chunk size - 1, fresh size) + B + G + T bytes, however many batches there are |
| Copy.LimitNeverRejects | src/openzl_bridge.cpp:288-290 | With limits of at least that bound, every COPY runs exactly as under any other such limit, whichever compress calls fail: same chunks, same failures, same fallbacks, however long the input |
| Copy.OnlyOpenZLRejects | src/openzl_bridge.cpp:279-322 | With a limit of at least that bound, a COPY fails if and only if OpenZL itself rejects the chunk the COPY got to, with the trained compressor and, where a retry is allowed, with the generic graph too |
| RowGroups.LawfulAndBounded | src/openzl_extension.cpp:938-946 | A writer that holds back row groups keeps its rows and keeps to a budget for batches of bounded size, so the size bound applies to writers that lose nothing |
| Copy.SinkEncodes | src/openzl_extension.cpp:870-884 | In every run, a chunk is marked as fallen back exactly if its trained attempt failed, and its frame is the matching attempt's |
| Copy.FallbackAccounting | src/openzl_extension.cpp:870-884 | The same for a whole COPY; without the option, or without a trained compressor, no chunk falls back |
| Copy.NoSecondAttempt | src/openzl_extension.cpp:877-879 | Without the option or without a trained compressor, a COPY fails if and only if the one attempt on the chunk it got to fails or the chunk is over the limit |
| ArchiveWriter.ChunkedArchiveWriter.constructor | src/openzl_bridge.cpp:132-133 | A new archive has no frames and touches no file |
| ArchiveWriter.ChunkedArchiveWriter.OpenContainer | src/openzl_bridge.cpp:147-159 | The file becomes the magic and the frame held back, with that frame's range and the position after it |
| ArchiveWriter.ChunkedArchiveWriter.Append | src/openzl_bridge.cpp:141-166 | The first frame is held back and touches no file; from the second on the file is the magic and all frames in order, with ranges and 64-bit position matching |
| ArchiveWriter.ChunkedArchiveWriter.Finish | src/openzl_bridge.cpp:168-189 | Fails exactly without frames; otherwise the path holds the lone frame or the complete container |
| ArchiveWriter.ChunkedArchiveWriter.Abort | src/openzl_bridge.cpp:191-197 | A partial container is removed; a path never opened keeps what it held |
| ArchiveWriter.ChunkedArchiveWriter.Destroy | src/openzl_bridge.cpp:135-139 | Dropping an unfinished writer aborts it, dropping a finished one changes nothing |
| ArchiveWriter.RangesAppend | src/openzl_bridge.cpp:160-162 | Appending a frame adds its range at the current position and moves no other |
| Bytes.PutLE64 | src/openzl_bridge.cpp:34-38 | The shift-and-mask loop appends the eight little-endian base-256 digits |
| Bytes.LittleEndian | src/openzl_bridge.cpp:34-38 | Byte i of a written number is its digit of weight 256^i |
| Bytes.GetLE64 | src/openzl_bridge.cpp:40-46 | The shift-and-or loop computes the value of the eight digits |
| Bytes.FromToLE | src/openzl_bridge.cpp:34-46 | Reading what was written gives the number back |
| Bytes.ToFromLE | src/openzl_bridge.cpp:34-46 | Writing what was read gives the bytes back |
| Container.ReadContainerIndex | src/openzl_bridge.cpp:50-92 | On every byte string below 2^64 bytes, the wrapping 64-bit reader agrees with the unbounded definition of the index |
| Container.ReadEntries | src/openzl_bridge.cpp:84-91 | The loop accepts exactly if every entry is in range, and then returns all of them |
| Container.RangesStayInside | src/openzl_bridge.cpp:73-90 | Whatever the bytes, reported ranges lie between the magic and the index, and the index inside the file |
| Container.PlainExactly | src/openzl_bridge.cpp:57-65 | A file is taken for a plain frame if and only if it is shorter than 24 bytes or does not begin with the magic |
| Container.TruncatedIsNotPlain | src/openzl_bridge.cpp:57-71 | A container cut short to 24 bytes or more is never taken for a plain frame |
| Container.AcceptsExactly | src/openzl_bridge.cpp:57-91 | A file of at least 24 bytes is accepted if and only if it begins and ends with the magic, its count is not zero and fits, and every entry points between the magic and the index |
| Container.ContainerRoundTrip | src/openzl_bridge.cpp:50-189 | A written container is read as exactly its frames' ranges, gap-free, and slicing range i gives frame i |
| Container.ContainerEnds | src/openzl_bridge.cpp:147-182 | The format from both ends: magic, frames and index, the number of frames, magic |
| Container.ContainerInside | src/openzl_bridge.cpp:147-182 | The format inside: each frame at its offset, then offset and length of each as eight little-endian bytes |
| Container.ReadsExactlyContainers | src/openzl_bridge.cpp:50-92 | A file is accepted with gap-free ranges if and only if it is the container of some frames, a single one included |
| Container.ReadsExactlyArchives | src/openzl_bridge.cpp:50-189 | A file is accepted with at least two gap-free ranges if and only if the writer makes it of several frames |
| Container.LoneContainerIsNotWritten | src/openzl_bridge.cpp:141-189 | A container of one frame reads back as that frame, but no sequence of plain frames is ever written that way |
| Container.AcceptedIsContainer | src/openzl_bridge.cpp:50-92 | A file accepted with gap-free ranges is, byte for byte, the container of the frames its ranges cut out |
| Container.RangesAreContiguous | src/openzl_bridge.cpp:153-162 | The writer's ranges start after the magic and follow each other without gap or overlap |
| OpenZL.ArchiveDecompresses | src/openzl_bridge.cpp:94-221 | Chunk count, whole decompression and chunk decompression of a finished archive: one frame only as a whole, several only chunk by chunk, every other request an error |
| ArchiveRead.DecompressChunkToBuffer | src/openzl_bridge.cpp:102-130 | Gives the chunk at that index and fails on plain and corrupt files and on indexes out of range |
| ArchiveRead.ExpandPath | src/openzl_file_system.cpp:328-353 | The expansion loop computes the glob of every path: the path itself, one path per chunk, or an error on a corrupt index |
| ArchiveRead.GlobKeepsPath | src/openzl_file_system.cpp:328-353 | Single-chunk paths, missing files and everything that is not a chunked archive expand to themselves |
| ArchiveRead.GlobOpensEveryChunk | src/openzl_file_system.cpp:328-353 | A chunked archive expands to distinct paths, one per frame in order, each of which opens that frame's bytes |
| ArchiveRead.ReadTableOfArchive | src/openzl_file_system.cpp:103-162 | Expanding, opening and decoding a finished archive gives the rows of its chunks in order |
| ArchiveRead.ChunkSuffixHidesFile | src/openzl_file_system.cpp:83-96 | Reading a path with a chunk suffix of its own does not depend on the file of that name |
| Paths.SplitChunkSuffixAccepts | src/openzl_file_system.cpp:83-96 | The suffix parser returns (archive, n) if and only if the path is the archive, the marker and 1 to 15 digits of value n, whatever markers the archive contains |
| Paths.ChunkNameRoundTrip | src/openzl_file_system.cpp:83-96 | A generated chunk path parses back to its archive and number exactly if the number is below 10^15 |
| Paths.ChunkNamesAreDistinct | src/openzl_file_system.cpp:344-346 | Different chunk numbers give different paths |
| Decimal.ValueOfPrint | src/openzl_file_system.cpp:345 | Decimal printing of a number has that value and no leading zero |
| Decimal.PrintOfValue | src/openzl_file_system.cpp:94 | Canonical digit strings are printed back from their value |
| Decimal.PrintLength | src/openzl_file_system.cpp:90 | A number prints with at most k digits if and only if it is below 10^k |
| Decimal.LeftPadRestores | src/openzl_extension.cpp:651 | Padding the print of a digit string's value to its length gives the string back, leading zeros included |
| ArchiveCache.CacheIsLinearizable | src/openzl_file_system.cpp:141-161 | In every interleaving each open handle shows what plain decompression gives at some moment between its stat and its return, if and only if no archive's stat comes back after other contents |
| ArchiveCache.RunConsistent | src/openzl_file_system.cpp:141-161 | The invariant of all runs: an entry's stat was taken no later than its buffer's version, and openers and handles agree with some version in their interval |
| ArchiveCache.HitIsSeen | src/openzl_file_system.cpp:148-150 | A cache hit is right even though entry stat, buffer version and the opener's stat may belong to three different versions |
| ArchiveCache.RevertIsServedStale | src/openzl_file_system.cpp:141-161 | From any history whose stat comes back after other contents, a run that serves a stale buffer |
| ArchiveCache.AdvancingMtimesNeverRevert | src/openzl_file_system.cpp:150 | Strictly advancing modification times are enough for linearizability |
| ArchiveCache.RestoredFileIsServedStale | src/openzl_file_system.cpp:41-42 | A concrete history in which stats identify contents and a stale buffer is still served |
| ArchiveCache.CacheTable.constructor | src/openzl_file_system.cpp:52-55 | The cache starts empty |
| ArchiveCache.CacheTable.OpenFile | src/openzl_file_system.cpp:147-161 | The locked part of an open leaves the table as the protocol's steps do and returns the buffer of the new handle, or fails without touching the entry |
| CacheSharing.HandlesShareOneBuffer | src/openzl_file_system.cpp:38-55 | If an archive is never rewritten, all live handles on a path hold one buffer, and there was exactly one successful decompression per period with some holder |
| CacheSharing.HandlesShareBetweenRewrites | src/openzl_file_system.cpp:38-55 | Between two rewrites of an archive, in every interleaving: all live handles on a path whose stat was taken since hold one buffer, and there was exactly one successful decompression per period in which somebody held what the archive now holds, whatever older entries and handles are around |
| CacheSharing.RunKeepsSharing | src/openzl_file_system.cpp:141-161 | The invariant behind it, from any quiet point of a run on: whoever took its stat since holds the entry's buffer or waits for it, only a path whose current contents nobody holds is decompressed, and decompressions equal periods of holding them |
| CacheSharing.HeldMeansLive | src/openzl_file_system.cpp:149 | Outside critical sections, the weak reference of an entry under the current stat can be locked exactly if somebody holds it |
| CacheSharing.FreedStaysFreed | src/openzl_file_system.cpp:38-40 | Once its last holder is gone a buffer is never handed out again, rewrites or not |
| CacheSharing.LockingKeepsAlive | src/openzl_file_system.cpp:149-152 | Locking an entry's reference keeps its buffer alive, also while a stale one is being replaced |
| MemoryFile.WriteKeepsHistory | src/openzl_file_system.cpp:224-240 | After a write, positioned or at the position, the buffer is the history's: last write wins, gaps are zero |
| MemoryFile.TruncateKeepsHistory | src/openzl_file_system.cpp:242-248 | After a truncate the buffer is the history's: cut bytes are gone for good, extensions are zero |
| MemoryFile.MoveKeepsHistory | src/openzl_file_system.cpp:282-292 | Seeks, resets and reads leave the bytes alone |
| MemoryFile.SplitReads | src/openzl_file_system.cpp:212-222 | From any position, also past the end, any split into sequential reads returns the bytes of one read of the total size and ends at the same position |
| MemoryFile.SplitWrites | src/openzl_file_system.cpp:235-240 | Any split into sequential writes leaves the file and the position of one write of all the data |
| MemoryFile.SeekThenWrite | src/openzl_file_system.cpp:224-284 | A seek followed by a sequential write leaves the file of a positioned write; only the positions differ |
| MemoryFile.ResetThenRead | src/openzl_file_system.cpp:212-288 | After a reset a sequential read gives the first bytes of the file |
| MemoryFile.WriteAtPosition | src/openzl_file_system.cpp:235-240 | A sequential write leaves the file of the positioned write at the position |
| FileHandle.GuardIsExact | src/openzl_file_system.cpp:205-209 | An access the 64-bit guard lets through is inside the buffer if and only if its end does not wrap |
| FileHandle.WrappingAccessPasses | src/openzl_file_system.cpp:205-209 | The guard lets one byte at location 2^64 - 1 through, whatever the size |
| FileHandle.OpenzlFileHandle.ForReading | src/openzl_file_system.cpp:32-35 | A read handle shows the decompressed bytes from position 0 and is not writable; its history starts with them |
| FileHandle.OpenzlFileHandle.ForWriting | src/openzl_file_system.cpp:115-118 | A write handle starts empty |
| FileHandle.OpenzlFileHandle.ReadAt | src/openzl_file_system.cpp:202-210 | For every 64-bit location and length: the bytes the handle's history gives for that range exactly if the range ends within the history's size; a copy from outside the buffer exactly if the end wraps to a value within the size; otherwise an error |
| FileHandle.OpenzlFileHandle.Read | src/openzl_file_system.cpp:212-222 | The history's bytes from the position on, as many as are left up to the request; handle and history advance alike |
| FileHandle.OpenzlFileHandle.WriteBytesAt | src/openzl_file_system.cpp:224-233 | For every 64-bit location: the write joins the history, except that handles not open for writing refuse it and that a write whose end wraps copies to outside the buffer |
| FileHandle.OpenzlFileHandle.WriteBytes | src/openzl_file_system.cpp:235-240 | A sequential write joins the history, which places it at the position and advances that; refusal and wrapping end as for a positioned write |
| FileHandle.OpenzlFileHandle.TruncateTo | src/openzl_file_system.cpp:242-248 | The truncate joins the history |
| FileHandle.OpenzlFileHandle.Seek | src/openzl_file_system.cpp:282-284 | The seek joins the history: later sequential calls work from there, also past the end, and the bytes stay |
| FileHandle.OpenzlFileHandle.Reset | src/openzl_file_system.cpp:286-288 | The reset joins the history: later sequential calls work from the start, and the bytes stay |
| FileHandle.CompressParquetBytes | src/openzl_bridge.cpp:383-388 | The file is only touched after compression succeeded; on success it holds the frame |
| FileHandle.OpenzlFileHandle.CompressToTmp | src/openzl_file_system.cpp:171-188 | Which of the two profiles succeeds, from profile, size and failures; only the temp file is ever touched |
| FileHandle.OpenzlFileHandle.CompressesExactly | src/openzl_file_system.cpp:171-188 | On sizes and attempts: a buffer within the limit is compressed if and only if its profile's attempt works, or it has at most 64000000 bytes, its profile is not serial, and the generic attempt works |
| FileHandle.OpenzlFileHandle.Close | src/openzl_file_system.cpp:164-200 | In every disk state during the call the path holds its old contents or one whole frame of the buffered bytes; on success it is the profile's frame, or the generic one if that attempt failed; a failure leaves the path unchanged and the temp file gone; a second call does nothing |
| Staging.BufferFileSystem.GenerateUniquePath | src/openzl_file_system.cpp:372-375 | The path of the current counter value, which advances modulo 2^64 |
| Staging.BufferFileSystem.OpenFile | src/openzl_file_system.cpp:398-413 | Creates an empty buffer for a new path, keeps an existing one with its bytes, and touches no other |
| Staging.BufferFileSystem.Write | src/openzl_file_system.cpp:415-421 | A write through a handle changes the registered buffer and no other entry; after the buffer has been taken it changes nothing in the registry; one whose end wraps misses the buffer |
| Staging.BufferFileSystem.PeekSize | src/openzl_file_system.cpp:377-381 | The buffer's size, 0 for an unknown path |
| Staging.BufferFileSystem.TakeBuffer | src/openzl_file_system.cpp:383-392 | The buffer's contents, gone from the registry afterwards; an error for an unknown path |
| Staging.PathsRepeatOnWrap | src/openzl_file_system.cpp:372-375 | Two generated paths are equal if and only if their counters agree modulo 2^64 |
| Staging.RunIsIsolated | src/openzl_file_system.cpp:372-427 | In every interleaving, from any counter and any registry that earlier COPYs left, the registry is the initial one plus one entry per staging COPY, holding exactly what that COPY wrote |
| Staging.StepKeepsIsolation | src/openzl_file_system.cpp:372-427 | Each generate, open, write and take keeps that |
| Staging.ConcurrentCopiesAreIsolated | src/openzl_extension.cpp:863-898 | A COPY that takes its chunk gets its own bytes, a new path is unused, and when all COPYs are between chunks the registry is as at the start |
| Promote.IntegerRoundTrip | src/openzl_extension.cpp:490-544 | Text the integer pattern accepts fits in 64 bits and prints back to itself |
| Promote.IntegerPatternIsExact | src/openzl_extension.cpp:490 | The integer pattern accepts exactly the decimal prints of the integers with at most that many digits |
| Promote.DecimalPatternIsExact | src/openzl_extension.cpp:491-493 | The decimal pattern accepts exactly an optional minus, the print of a number within the integer digits or nothing, and a point with one to scale digits or nothing, not both nothing |
| Promote.DigitsPatternIsExact | src/openzl_extension.cpp:509 | The digit pattern accepts, at each length, exactly the zero-padded prints of the numbers that fit it |
| Promote.DecimalIsExact | src/openzl_extension.cpp:491-494 | Text the decimal pattern accepts is cast without rounding or overflow: the unscaled value denotes the same rational and stays below 10^(i+s) |
| Promote.DigitsAreExact | src/openzl_extension.cpp:545-546 | A digit string is cast to a decimal of its own length without change of value |
| Promote.RestoreWidthOfType | src/openzl_extension.cpp:646-649 | The type-string parser reads L from DECIMAL(L,0) and 0 from every other scale, even one that ends in 0 |
| Promote.RestoreWidthMeans | src/openzl_extension.cpp:646-649 | Only types that read DECIMAL(...,0) have a width, and it is the number after the parenthesis |
| PromoteTable.CollectAggregates | src/openzl_extension.cpp:496-513 | The select list of the analysis query holds the aggregates of the text columns one after the other, three or six per column |
| PromoteTable.RowHoldsColumn | src/openzl_extension.cpp:522-536 | Of the flat row of aggregates, the slice at stride * k belongs to the k-th text column, whichever columns in between are skipped |
| PromoteTable.ColumnVerdict | src/openzl_extension.cpp:524-552 | The branches over the aggregates at an offset of the flat row give the verdict defined by the column's cells |
| PromoteTable.PromoteBind | src/openzl_extension.cpp:496-554 | Every column gets its own verdict, although the aggregates of the text columns only arrive in one flat row |
| PromoteTable.VerdictByTexts | src/openzl_extension.cpp:543-549 | The verdict by what the texts of a column are: prints of integers give BIGINT first; else, if asked for, padded numbers of one width give DECIMAL(width,0); else, if allowed, decimals within the bounds give the decimal type; everything else is left alone |
| PromoteTable.EqualLengthsAreOneWidth | src/openzl_extension.cpp:533-542 | All digits and equal minimum and maximum length means every text is digits of exactly that width |
| PromoteTable.PromotionNeverFails | src/openzl_extension.cpp:556-564 | Every cast a verdict asks for succeeds |
| PromoteTable.PromotedTableExists | src/openzl_extension.cpp:556-564 | The promoting query succeeds on every table |
| PromoteTable.BigintComesBack | src/openzl_extension.cpp:543-544 | A BIGINT column is left alone by restore and prints back character for character |
| PromoteTable.FixedWidthComesBack | src/openzl_extension.cpp:640-655 | A fixed-width column is restored exactly, leading zeros and NULLs included |
| PromoteTable.DecimalStaysExact | src/openzl_extension.cpp:547-548 | A column cast to the decimal type is never mistaken by restore, and each number equals its text |
| PromoteTable.UnpromotedSurvives | src/openzl_extension.cpp:619-624 | A column that was not promoted survives restore if and only if its type is not DECIMAL(L,0) with 2 <= L <= 18 |
| PromoteTable.RestoreBind | src/openzl_extension.cpp:639-656 | For each column of type DECIMAL(p,s): padded to p exactly if s = 0 and 2 <= p <= 18 |
| PromoteTable.ColumnComesBack | src/openzl_extension.cpp:490-655 | One column: it comes back if and only if restore leaves its source type alone |
| PromoteTable.RestoreInvertsPromote | src/openzl_extension.cpp:490-655 | Whole tables, through the verdicts, the casts and the restoring select list: every column comes back if and only if no source column was already DECIMAL(L,0) with 2 <= L <= 18. Fixed-width text comes back character for character, BIGINT text through its print, decimals as the same numbers, NULLs as NULL |
| Repack.ArchiveNamesDiffer | scripts/ducklake_pack.py:93 | Among names ending in .parquet the archive name is injective and never another source |
| Repack.ScriptIsLawful | scripts/ducklake_pack.py:93-157 | The script's own names meet what the safety proof needs of names: archives of distinct `.parquet` sources are distinct and no sources, and an `openzl://` row leads back to its file |
| Repack.NamesCollideWithoutSuffix | scripts/ducklake_pack.py:93 | A source without the suffix shares its archive name with the one that has it, so the assumption is needed |
| Repack.RestartKeepsInv | scripts/ducklake_pack.py:133-145 | A crash at any point, and a rerun on the rows still naming parquet files, keep the invariant |
| Repack.StepKeepsInv | scripts/ducklake_pack.py:91-161 | Every effect of a worker or of the commit loop, a crash and a rerun keep the invariant |
| Repack.RunKeepsInv | scripts/ducklake_pack.py:91-161 | So do all runs |
| Repack.RepackingIsCrashSafe | scripts/ducklake_pack.py:91-161 | In every reachable state each catalog row names an existing file with exactly its original rows; done jobs are on their archive with the source gone, failed ones are where they were |
| Repack.GoodJobPacks | scripts/ducklake_pack.py:91-161 | Packing does something: a readable source whose archive reads back as the same rows ends with its row on the archive, that archive on disk, and the source gone |
| Repack.FailureHasReason | scripts/ducklake_pack.py:94-103 | Without an exception a job fails in a step if and only if a read failed or the fingerprints differ; differing fingerprints remove the archive and leave the row |
| Repack.FailedRunHasReason | scripts/ducklake_pack.py:91-114 | Over whole runs: a job that ends failed without an exception had such a reason in one of its steps |
| Repack.WorkersKeepSettled | scripts/ducklake_pack.py:144-161 | Whatever the workers do, a job that is committed, done or failed stays as it is |
| Repack.CommitOne | scripts/ducklake_pack.py:157-161 | The row is switched and the source removed, with other workers' steps in between; jobs that were settled stay settled |
| Repack.TakeTurn | scripts/ducklake_pack.py:146-161 | One turn of the loop with the workers' steps before and during it: its job ends done or failed, and no other finished job changes |
| Repack.TurnsAreSteps | scripts/ducklake_pack.py:144-161 | Any sequence of turns is a run of the machine, so the crash-safety theorem covers it |
| Repack.CommitLoop | scripts/ducklake_pack.py:141-168 | The loop, with a turn for every job in any order of completion, interleaved with the workers still running: all of it is a run of the machine; at its end every job is done or failed, and the totals cover exactly the done ones |
| Samples.SelectSamplePaths | src/openzl_train_bridge.cpp:47-73 | The selection is the longest prefix of the eligible files that obeys the count and total caps, the first file always allowed: it ends only at the count or where the next file would exceed the total; an error exactly if no file is eligible; the total is within its cap or one file was selected |
| Samples.SelectFiles | src/openzl_train_bridge.cpp:51-66 | The greedy loop, in wrapping 64-bit arithmetic, ends with an obeying prefix of the eligible files that cannot be made longer |
| Samples.LimitsInBytes | src/openzl_train_bridge.cpp:48-49 | The limits are the options in megabytes, 150 and 300 megabytes when they are zero |
| Samples.EligibleMeans | src/openzl_train_bridge.cpp:57-60 | The eligible files are exactly those within the per-file limit |
| Samples.ObeyingIsPrefixClosed | src/openzl_train_bridge.cpp:53-66 | Prefixes of an obeying selection obey, so the longest one is well defined and greedy finds it |
| Samples.NextFits | src/openzl_train_bridge.cpp:61-65 | Adding one more eligible file cannot overflow the 64-bit total |

## Left out

- OpenZL itself: graphs, codecs, training, benchmarks, format versions, serialized compressors.
- DuckDB's planner, parquet encoder, regex engine, `CAST` and `lpad`: patterns, casts and padding are their plain
  definitions, and the aggregates are computed from the cells.
- Option and setting parsing, `ResolveParquetChunkBytes`, `ValidateGraphOptions`, table-name checks, identifier quoting,
  error texts, and the informational list of promoted columns. Most errors are just `None` or `false`.
- Real disk failures in COPY and `Finish`, and cancelled COPYs: the code does not promise cleanup on those paths.
- A COPY whose staging file or archive is touched by another process, and two COPYs to one path.
- CopySink.CopyTable: no other COPY uses the staging registry while it runs. `CopySink.CopySink.OthersMove` shows that the
  sink's calls do not mind others in between, and `Staging.ConcurrentCopiesAreIsolated` that others do no more than that.
- The empty cache entry that a failing first open leaves behind: an absent entry stands for it.
- Missing files in the cache, where size and mtime stay -1, and a rewrite between the two opens of one
  chunk decompression.
- ArchiveCache.CacheTable.OpenFile: which buffers are still alive is an argument, as reference counting is not modelled;
  the protocol says who holds what.
- Staging.BufferFileSystem.Write: a handle is its path, so a handle that outlives `TakeBuffer` of a path that is then opened
  again is not modelled (generated paths never are, below 2^64 of them); nor are reads, seeks and truncates through staging handles, which
  repeat those of `OpenzlFileHandle`.
- FileHandle.OpenzlFileHandle.ReadAt: what follows a copy from or to outside a buffer is not modelled, nor are reads and
  seeks on a handle whose buffer has been published.
- CopySink.CompressChunkWithFallback: the counter is an unbounded number; other COPYs counting at once are not modelled.
- Repack.RepackingIsCrashSafe: subprocesses, nested-column checks and decompression into a temp file are steps that may
  fail at any point (`Raise`); the row's size and footer columns are not modelled, and neither are `--limit` and path
  resolution in `list_files`.
- Samples.SelectSamplePaths: file sizes are given, and a size that cannot be read is not modelled.
- A source name that ends in `.parquet` and a newline, which the script's pattern also strips.
- Directory operations, `MoveFile`, `FileExists` and `TryRemoveFile` of the virtual file system; Windows branches.
