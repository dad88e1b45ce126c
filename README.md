# Vertex buffer residency and handle edits of GeomVertexArrayData

A Dafny model of the part of panda3d's `GeomVertexArrayData` that decides
where a vertex buffer's bytes live and of the byte edits its
`GeomVertexArrayDataHandle` performs.

Residency. A buffer is in one of four classes: resident, compressed, disk
or compressed-disk. Each class belongs to one of three global LRU lists;
the two disk classes share the disk list. `make_resident`,
`make_compressed`, `make_disk` and `restore_from_disk` move a buffer
between classes:
- compression goes through a deflate codec, but only when the buffer's
  full size strictly exceeds a minimum;
- disk classes keep the bytes in a block of a global save file, and the
  in-memory data is then empty;
- a write the save file refuses is a soft failure that only refreshes
  recency.

`evict_lru` picks the next class down: a resident buffer is compressed,
or goes straight to disk when the compressed LRU has a maximum of zero;
a compressed buffer goes to disk; a disk buffer stays where it is.
`lru_epoch` gives epochs to the resident and compressed lists only.

Contexts. A buffer also keeps one graphics context per
`PreparedGraphicsObjects` it has been prepared on. `prepare_now`,
`release`, `release_all` and the `clear_prepared` callback keep that
table.

Handle edits. The handle resizes the buffer by rows (`set_num_rows`,
`unclean_set_num_rows`), copies another buffer (`copy_data_from`) or
splices a clamped range of it (`copy_subdata_from`). Each edit makes the
buffer resident first. An edit that changes the bytes ends with the full
size and LRU size set to the new length; a row resize to the current row
count returns without touching either.

The project has six modules:
- `VertexTypes`: bytes, classes, LRU lists, the class-to-list table and
  the codec.
- `ByteEdits`: vector erase, zero-insert and memcpy, row resizing, and
  the clamped splice, each characterised byte by byte.
- `Residency`: the buffer as a value (`Page` plus the save file's
  blocks). It holds the residency invariant `Inv` and one function per
  transition, with the lemmas: invariant kept, contents kept, the
  eviction dispatch, idempotence and the two round trips.
- `SaveFile`: the save file as a class of blocks.
- `Registry`: the context table as a value.
- `VertexArrayData`: the two classes, whose methods update their fields
  in place. Each method is proved to produce exactly what the
  `Residency`, `Registry` or `ByteEdits` functions compute from the old
  state, and to keep `Valid()`. For the two copies this covers both
  pages and the save file's blocks: the copied-to page is
  `Residency.Reset` of its checked page, the other page is its
  `Residency.CheckResident` page, and only the two pages' own blocks are
  freed.

`Valid()` includes the codec's round-trip law, `RoundTrips`, and the
save file's own `Valid()`, which keeps its byte count equal to the total
size of its blocks (`SaveFile.Total`). `min-vertex-data-compress-size`
and `max-compressed-vertex-data` are fields of `Config`, not fixed
constants; the compression level is folded into the codec's `compress`
function. `max-disk-vertex-data` is an argument of `MakeSaveFile`.

LRU sizes follow the code exactly:
- `make_disk` (492-535) never calls `set_lru_size`, so a buffer on disk
  keeps the LRU size it had in memory;
- `make_resident` does not call it after restoring a disk page straight
  to resident, because the compressed branch (399-424) is skipped;
- so a page's LRU size need not equal its data length, and no contract
  claims it does.

## Model

| member | source | states |
|---|---|---|
| VertexTypes.GlobalLru | panda/src/gobj/geomVertexArrayData.cxx:79-84 | resident and compressed have their own list each; exactly the two disk classes map to the disk list |
| VertexTypes.EpochTiers | panda/src/gobj/geomVertexArrayData.cxx:370-377 | the epoch reaches the list of every in-memory class and never the disk list |
| Residency.RestoreKeepsContents | panda/src/gobj/geomVertexArrayData.cxx:544-574 | restore on a disk class reads the block back into the data, frees the block, clears the handle and maps compressed-disk to compressed and disk to resident; any other class is unchanged; invariant and contents kept |
| Residency.MakeResidentKeepsContents | panda/src/gobj/geomVertexArrayData.cxx:385-426 | make_resident always ends resident with the logical contents as data, of full-size length, with no block and its old block freed |
| Residency.MakeCompressedKeepsContents | panda/src/gobj/geomVertexArrayData.cxx:434-484 | make_compressed always ends compressed with no block; the bytes it stands for are unchanged (needs the codec round trip) |
| Residency.MakeDiskKeepsContents | panda/src/gobj/geomVertexArrayData.cxx:492-535 | a disk page or a refused write only refreshes recency; a written block takes the data, the data empties, resident goes to disk and compressed to compressed-disk, the LRU size is left as it was; invariant and contents kept |
| Residency.EvictPolicy | panda/src/gobj/geomVertexArrayData.cxx:591-617 | eviction compresses a resident page, or writes it to disk when the compressed LRU maximum is 0; writes a compressed page to disk; leaves a disk page exactly as it was |
| Residency.DiskNeverEvicted | panda/src/gobj/geomVertexArrayData.cxx:370-377 | a disk-class page is on no list that gets an epoch, and an eviction request leaves it unchanged |
| Residency.TransitionsIdempotent | panda/src/gobj/geomVertexArrayData.cxx:385-393 | a transition whose target class already holds only marks the page used (the same applies at 438-442 and 496-500); restore on a non-disk page is the identity |
| Residency.CompressRoundTrip | panda/src/gobj/geomVertexArrayData.cxx:434-484 | a resident page compressed is accounted at its compressed length; its data is the codec output exactly when full size > minimum; making it resident again gives back the identical page with only recency advanced and LRU size set to the data length |
| Residency.DiskRoundTrip | panda/src/gobj/geomVertexArrayData.cxx:492-574 | writing a resident or compressed page to a fresh block and restoring it gives back the identical page and save file, with only recency advanced; making it resident instead yields its contents (its old data if it was resident) |
| Residency.DiskWriteFailureIsSoft | panda/src/gobj/geomVertexArrayData.cxx:516-521 | when write_data returns null, only the recency changes: class, data, block and save file stay |
| Residency.InvFrame | panda/src/gobj/geomVertexArrayData.cxx:544-574 | the invariant and contents depend on the save file only through the page's own block |
| Residency.Step | panda/src/gobj/geomVertexArrayData.cxx:385-617 | no single residency request changes the full size, and a saved block stays readable |
| Residency.Run | panda/src/gobj/geomVertexArrayData.cxx:385-617 | no sequence of residency requests changes the full size |
| Residency.StepKeepsContents | panda/src/gobj/geomVertexArrayData.cxx:385-617 | every residency request keeps the invariant and the logical contents |
| Residency.RunKeepsContents | panda/src/gobj/geomVertexArrayData.cxx:385-617 | any sequence of requests keeps the invariant (a block exists exactly for the disk classes) and the contents byte for byte |
| Residency.CheckResidentKeepsContents | panda/src/gobj/geomVertexArrayData.cxx:927 | check_resident leaves the page resident with its contents as data, the full size unchanged, and exactly its own block freed |
| Residency.CheckResidentFrame | panda/src/gobj/geomVertexArrayData.cxx:1019-1020 | check_resident on one array gives the same page whatever other arrays hold in the save file, and frees only that array's block |
| Residency.ResetKeepsInv | panda/src/gobj/geomVertexArrayData.cxx:942-946 | resetting a resident page's data, full size, class and LRU size keeps the invariant, and the new bytes are the contents |
| Residency.SetNumRowsEffect | panda/src/gobj/geomVertexArrayData.cxx:924-952 | set_num_rows keeps the invariant and ends resident; with the current row count the contents and full size are unchanged, otherwise the contents are the resized rows and the full size and LRU size are the new length |
| Residency.UncleanSetNumRowsEffect | panda/src/gobj/geomVertexArrayData.cxx:959-983 | unclean_set_num_rows: the same, with a fresh zero vector of n * stride bytes for a different row count |
| ByteEdits.Zeros | panda/src/gobj/geomVertexArrayData.cxx:969 | the new vector has n bytes, all zero |
| ByteEdits.Erase | panda/src/gobj/geomVertexArrayData.cxx:937-938 | erase drops exactly the range: the bytes before it are kept, the bytes after it move down |
| ByteEdits.InsertZeros | panda/src/gobj/geomVertexArrayData.cxx:934 | insert adds n zero bytes at the position, the bytes before it are kept, the bytes after it move up |
| ByteEdits.Overwrite | panda/src/gobj/geomVertexArrayData.cxx:1039 | memcpy replaces exactly the target range and keeps the length |
| ByteEdits.ResizeRowsShape | panda/src/gobj/geomVertexArrayData.cxx:929-938 | the same row count leaves the bytes alone; otherwise the old prefix is kept and appended bytes are 0, the result holds exactly n whole rows, and its length is n * stride when the old length was a multiple of the stride |
| ByteEdits.UncleanRows | panda/src/gobj/geomVertexArrayData.cxx:965-970 | the same row count keeps the vector; otherwise the result is n * stride zero bytes |
| ByteEdits.Splice | panda/src/gobj/geomVertexArrayData.cxx:1029-1039 | the result has length old - cut + piece, keeps the prefix before the position, holds the piece, and keeps the suffix after the cut |
| ByteEdits.ResizeThenCopyIsSplice | panda/src/gobj/geomVertexArrayData.cxx:1029-1039 | erasing or zero-inserting at the end of the range and then copying the piece over it is exactly the splice |
| ByteEdits.ClampRange | panda/src/gobj/geomVertexArrayData.cxx:1023-1027 | the clamped range lies inside the vector, keeps an in-bounds start, is cut at the end, is empty at the end for a start past it, and is exact when it already fits |
| ByteEdits.CopySubdata | panda/src/gobj/geomVertexArrayData.cxx:1014-1047 | copy_subdata_from's result is the destination with its clamped range spliced out for the source's clamped range |
| ByteEdits.ResizeAndCopy | panda/src/gobj/geomVertexArrayData.cxx:1022-1039 | the source's steps (clamp, resize the range, memcpy) give exactly that splice |
| Registry.Cleared | panda/src/gobj/geomVertexArrayData.cxx:629-640 | clear_prepared leaves exactly the old keys without the given one |
| Registry.ClearedKeepsOthers | panda/src/gobj/geomVertexArrayData.cxx:629-640 | the given key is gone and every other entry is kept with its context |
| Registry.PrepareNowRecords | panda/src/gobj/geomVertexArrayData.cxx:296-310 | prepare_now hands back a context exactly when the key ends up in the table, and it is the recorded one; other keys are untouched |
| Registry.PrepareNowIdempotent | panda/src/gobj/geomVertexArrayData.cxx:299-302 | once prepared, prepare_now returns the same context and changes nothing, whatever the consumer would answer |
| Registry.ReleaseUndoesPrepare | panda/src/gobj/geomVertexArrayData.cxx:319-331 | releasing a context prepare_now just recorded restores the table |
| SaveFile.SizeT | panda/src/gobj/geomVertexArrayData.cxx:687 | the size_t conversion wraps modulo 2^64, so -1 becomes the largest size |
| SaveFile.MakeSaveFile | panda/src/gobj/geomVertexArrayData.cxx:685-691 | the global save file is new and empty, with the size_t-converted max-disk-vertex-data as capacity |
| SaveFile.VertexDataSaveFile.WriteData | panda/src/gobj/geomVertexArrayData.cxx:516 | a write fails, returning no block, exactly when it would exceed the capacity; otherwise a fresh block holds the bytes and the byte count grows by their length |
| SaveFile.TotalRemove | panda/src/gobj/geomVertexArrayData.cxx:565 | the total size of the blocks is any one block's size plus the total of the rest, so freeing a block returns exactly its length |
| SaveFile.TotalAdd | panda/src/gobj/geomVertexArrayData.cxx:516 | a block added under a new identifier adds exactly its length to the total |
| SaveFile.VertexDataSaveFile.ReadData | panda/src/gobj/geomVertexArrayData.cxx:560 | a read gives back exactly the block's bytes |
| SaveFile.VertexDataSaveFile.FreeBlock | panda/src/gobj/geomVertexArrayData.cxx:565 | deleting a block removes it and only it, and returns exactly its length to the byte count |
| VertexArrayData.GeomVertexArrayData.constructor | panda/src/gobj/geomVertexArrayData.cxx:129-148 | a new buffer is resident, without a block, on the resident list, empty, with no contexts |
| VertexArrayData.GeomVertexArrayData.RestoreFromDisk | panda/src/gobj/geomVertexArrayData.cxx:544-574 | the object ends in exactly the state Residency.RestoreFromDisk computes and stays valid |
| VertexArrayData.GeomVertexArrayData.MakeResident | panda/src/gobj/geomVertexArrayData.cxx:385-426 | the object ends in exactly the state Residency.MakeResident computes and stays valid |
| VertexArrayData.GeomVertexArrayData.MakeCompressed | panda/src/gobj/geomVertexArrayData.cxx:434-484 | the object ends in exactly the state Residency.MakeCompressed computes and stays valid |
| VertexArrayData.GeomVertexArrayData.MakeDisk | panda/src/gobj/geomVertexArrayData.cxx:492-535 | the object ends in exactly the state Residency.MakeDisk computes for the save file's answer, which for the stand-in save file is a refusal exactly when the data does not fit |
| VertexArrayData.GeomVertexArrayData.EvictLru | panda/src/gobj/geomVertexArrayData.cxx:591-617 | the object ends in exactly the state Residency.EvictLru computes and stays valid |
| VertexArrayData.GeomVertexArrayData.Prepare | panda/src/gobj/geomVertexArrayData.cxx:258-261 | the buffer joins the consumer's queue |
| VertexArrayData.GeomVertexArrayData.IsPrepared | panda/src/gobj/geomVertexArrayData.cxx:270-278 | true exactly when a context on the consumer exists or the buffer is queued there |
| VertexArrayData.GeomVertexArrayData.PrepareNow | panda/src/gobj/geomVertexArrayData.cxx:296-310 | the table and the answer are Registry.Prepared and Registry.Handed; the consumer makes a context exactly when the guardian can; with a context already recorded the consumer is not asked and its counter is unchanged |
| VertexArrayData.GeomVertexArrayData.Release | panda/src/gobj/geomVertexArrayData.cxx:319-331 | true exactly when a context existed or the buffer was queued; a context is released on the consumer and forgotten, otherwise the buffer is dequeued |
| VertexArrayData.GeomVertexArrayData.ReleaseAll | panda/src/gobj/geomVertexArrayData.cxx:340-361 | every context is released once on its own consumer, the table ends empty, and the count is the old table size; no consumer's queue or context counter changes |
| VertexArrayData.GeomVertexArrayData.ClearPrepared | panda/src/gobj/geomVertexArrayData.cxx:629-640 | the table loses exactly the given key |
| VertexArrayData.GeomVertexArrayDataHandle.CheckResident | panda/src/gobj/geomVertexArrayData.cxx:927 | the buffer ends resident with its contents as data and its block freed |
| VertexArrayData.GeomVertexArrayDataHandle.SetNumRows | panda/src/gobj/geomVertexArrayData.cxx:924-952 | a read-only handle changes nothing; otherwise the result is true exactly when the row count differs, and the contents become the resized rows |
| VertexArrayData.GeomVertexArrayDataHandle.UncleanSetNumRows | panda/src/gobj/geomVertexArrayData.cxx:959-983 | a read-only handle changes nothing; otherwise the result is true exactly when the row count differs, and the contents become n * stride zero bytes |
| VertexArrayData.GeomVertexArrayDataHandle.CheckBothResident | panda/src/gobj/geomVertexArrayData.cxx:1019-1020 | both buffers end resident holding their contents, each still valid; each page is exactly its own check_resident page, and the save file loses exactly the two pages' own blocks |
| VertexArrayData.GeomVertexArrayDataHandle.Store | panda/src/gobj/geomVertexArrayData.cxx:1041-1045 | the new bytes become the data with full size and LRU size their length, and the buffer is resident and valid |
| VertexArrayData.GeomVertexArrayDataHandle.CopyDataFrom | panda/src/gobj/geomVertexArrayData.cxx:990-1004 | a writable handle's buffer becomes a resident copy of the other's contents; the other keeps its contents; the copied-to page is Residency.Reset of its check_resident page, the other page is its check_resident page, and only the two pages' own blocks leave the save file; a read-only handle changes nothing |
| VertexArrayData.GeomVertexArrayDataHandle.CopySubdataFrom | panda/src/gobj/geomVertexArrayData.cxx:1014-1047 | a writable handle's buffer becomes ByteEdits.CopySubdata of the two contents; the other keeps its contents; the copied-to page is Residency.Reset of its check_resident page, the other page is its check_resident page, and only the two pages' own blocks leave the save file; a read-only handle changes nothing |

## Left out

- zlib: the codec is two total functions with a round-trip law. Its stream format, the compression level, the 0.1% + 12 output buffer sizing and its error returns are not modelled. On a codec error the source reports an assertion failure and carries on: make_resident reaches its final length assertion, and make_compressed installs whatever the output buffer holds. The model assumes every codec call succeeds.
- On a failed read of a saved block the source reports an assertion failure and carries on: restore_from_disk still installs the unread buffer and frees the block. The model assumes the read succeeds and always returns the block's bytes.
- VertexDataSaveFile and SimpleAllocatorBlock are not part of this model. The save file here is a stand-in: a map of blocks with a byte capacity. It has no file, no offsets and no fragmentation; its byte count is the total size of its blocks. The real write_data may also return no block when allocation or the file write fails; the stand-in refuses only for capacity. The residency lemmas take the write's answer as a parameter and hold for every answer.
- The stride is taken to be positive: `Valid()` requires it. The source relies on this for the row divisions at 930 and 965 and does not check it.
- PreparedGraphicsObjects and the graphics state guardian are not part of this model. Their stand-ins keep a queue, a list of released contexts, and a yes/no answer for creating a context.
- SimpleLru is not part of this model. The bodies of begin_epoch, mark_used_lru, set_lru_size and set_ram_class are not modelled. A page's list is a tier label and its position is a recency counter. set_ram_class is taken to set the class and move the page to that class's list.
- check_resident is defined outside this file and is not part of this model. It is taken to call make_resident when the buffer is not resident.
- The pipeline cycler is collapsed to one stage-0 record, so the stage-0 tests in the handle edits always hold. The `_modified` counter is not modelled.
- Bam serialisation, the copy constructor and copy assignment, the destructor, set_usage_hint, make_cow_copy, output and write are not modelled. So are the PStat timers, logging and the eviction warning.
- reverse_data_endianness is not modelled, because it depends on the array format's columns. As written, its loop advances the row cursor once per component while the component offset stays fixed, so it does not reverse each component.
- The pure transition functions keep the source's failed-assertion early returns (a block already present, a missing block, an expansion shorter than the full size, a page on the wrong list). The class methods rely on `Valid()`, under which those branches cannot occur.
- VertexArrayData.GeomVertexArrayDataHandle.SetNumRows: n is a nat. A negative `int n` (undefined behaviour in the source) is not modelled, and neither is `int` overflow of `delta * stride` or `n * stride`.
- VertexArrayData.GeomVertexArrayDataHandle.UncleanSetNumRows: n is a nat, and `int` overflow of `n * stride` is not modelled.
- VertexArrayData.GeomVertexArrayDataHandle.CopySubdataFrom: requires two different buffers. When a buffer copies from itself, the source's memcpy reads the vector after it has been resized, and that case is not modelled.
- VertexArrayData.GeomVertexArrayDataHandle.CopyDataFrom and CopySubdataFrom: both require that the two buffers use the one global save file and do not hold the same block. The source's allocator guarantees this globally; the model states it per call.
