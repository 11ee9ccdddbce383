# Row encoding and checkpoint block packing, in Dafny

This project models two parts of DuckDB's storage code and proves properties about them.

**RowChunk** (`src/common/types/row_chunk.cpp`) turns the values of a column vector into bytes in row-wise memory. It does this in three ways:

- As **sortable keys**: an optional validity byte, then a key whose bytes, compared with `memcmp`, order the values.
  - EncodeData writes integers big-endian.
  - Signed integers get their sign bit flipped.
  - Floats and doubles pass through EncodeFloat / EncodeDouble.
- As **row data**: each value is stored natively at its row's key location, and the row's validity bit is cleared when the value is NULL. The readers load the values back and skip over them.
- As **row indices**: SerializeIndices.

**RowChunk::Build** reserves room for `n` new rows. It fills the last block first, then adds as many new blocks as needed. It hands out one key location per row.

**PartialBlockForCheckpoint** and **ColumnCheckpointState::FlushSegment** (`src/storage/table/column_checkpoint_state.cpp`) pack the segments of a checkpointed column into shared disk blocks:

- FlushSegment drops empty segments.
- It records the segment's statistics.
- It gives constant segments no block at all.
- Any other segment is copied into an open partial block, or made the first member of a new one.
- Each flushed segment gets a data pointer. The pointers cover the row group's rows contiguously.
- Flush zeroes the block's uninitialised regions and free tail. It persists the block once, through its first member, and marks the other members as persistent at their offsets.
- Merge copies another partial block's bytes into this one at an offset, and appends the other's regions and members, shifted by that offset. It then clears the other's regions and clears this record, so the receiver ends flushed while the other keeps its members.

Module layout:

| file | module | contents |
|---|---|---|
| `types.dfy` | `Types` | results, errors, physical types, vector values |
| `byte_order.dfy` | `ByteOrder` | BSWAP, native and big-endian byte images, `memcmp` order and the numbers byte strings denote |
| `sort_key.dfy` | `KeyEncoding` | FlipSign, EncodeFloat, EncodeDouble, EncodeData and their order properties |
| `row_memory.dfy` | `RowMemory` | memory as a byte sequence; stores and bit clears as a list of writes |
| `sortable_rows.dfy` | `SortableRows` | the sortable serialisers and SerializeIndices over an `array<bv8>` |
| `row_layout.dfy` | `RowLayout` | row-data serialisation, deserialisation and SkipOverType |
| `row_chunk.dfy` | `RowAllocation` | class `RowChunk`: its constructors, AppendToBlock and Build |
| `partial_block.dfy` | `PartialBlocks` | class `PartialBlockForCheckpoint` |
| `column_checkpoint.dfy` | `ColumnCheckpoint` | class `ColumnCheckpointState` and FlushSegment |

How the model is set up:

- **Memory** is an `array<bv8>`, and `key_locations` is an `array<nat>` of byte addresses into it.
- Each serialiser is specified by the list of writes it performs (`ApplyWrites`).
- Read-back lemmas show what a later reader finds, provided no two writes overlap.
- **Build** returns each row's key location as a (block, byte offset) pair.
- **Host byte order** is a parameter (`littleEndian`). The source instead detects it at construction.
- **Calls into the buffer manager, the block manager and column segments** are either parameters or the `Call` events a method returns.

## Model

| member | source | states |
|---|---|---|
| ByteOrder.BSwap16Involutive | src/common/types/row_chunk.cpp:10 | BSWAP16 applied twice gives back the word |
| ByteOrder.BSwap32Involutive | src/common/types/row_chunk.cpp:12-14 | BSWAP32 applied twice gives back the word |
| ByteOrder.BSwap64Involutive | src/common/types/row_chunk.cpp:16-20 | BSWAP64 applied twice gives back the word |
| ByteOrder.SwappedStore16 | src/common/types/row_chunk.cpp:128-131 | a native store of BSWAP16(x) on a little-endian host, or of x on a big-endian one, leaves x's big-endian bytes |
| ByteOrder.SwappedStore32 | src/common/types/row_chunk.cpp:133-136 | the same for 32-bit stores: either host leaves the big-endian image |
| ByteOrder.SwappedStore64 | src/common/types/row_chunk.cpp:138-141 | the same for 64-bit stores: either host leaves the big-endian image |
| ByteOrder.LoadHost32Store | src/common/types/row_chunk.cpp:344 | Load<uint32_t> reads back what Store<uint32_t> wrote, on either host |
| ByteOrder.LoadHost64Store | src/common/types/row_chunk.cpp:255-259 | Load<idx_t> reads back what Store<idx_t> wrote, on either host |
| ByteOrder.Unsigned16Order | src/common/types/row_chunk.cpp:128-131 | the number a 16-bit word's big-endian image denotes orders words as their unsigned comparison does, both directions |
| ByteOrder.Unsigned32Order | src/common/types/row_chunk.cpp:133-136 | the same for 32-bit words |
| ByteOrder.Unsigned64Order | src/common/types/row_chunk.cpp:138-141 | the same for 64-bit words |
| ByteOrder.MemcmpLessValue | src/common/types/row_chunk.cpp:99-141 | for equal-length byte strings, memcmp order is exactly the order of the unsigned big-endian numbers they denote |
| ByteOrder.MemcmpLessConcat | src/common/types/row_chunk.cpp:185-188 | memcmp of prefix-plus-key strings: the prefixes decide unless they are equal, then the keys decide |
| ByteOrder.BigEndian64Injective | src/common/types/row_chunk.cpp:138-141 | distinct 64-bit words have distinct big-endian images, and back |
| ByteOrder.ByteValueFlipTop | src/common/types/row_chunk.cpp:38-40 | xor with 128 moves a byte half-way round its 256 values, and setting or clearing the top bit adds or removes 128 |
| KeyEncoding.FlipSign | src/common/types/row_chunk.cpp:38-40 | FlipSign is undone by a second xor with 128 |
| KeyEncoding.FlipFirstValueFour | src/common/types/row_chunk.cpp:111-115 | flipping the top bit of a 4-byte key's leading byte adds 2^31 to the number the key denotes, modulo 2^32 (the 1-, 2- and 8-byte lemmas alike) |
| KeyEncoding.SignedKeyValue32 | src/common/types/row_chunk.cpp:111-115 | the sign-flipped big-endian int32 key denotes the value plus 2^31 |
| KeyEncoding.SignedKeyOrder8 | src/common/types/row_chunk.cpp:99-103 | memcmp of int8 keys is two's complement order, both directions |
| KeyEncoding.SignedKeyOrder16 | src/common/types/row_chunk.cpp:105-109 | memcmp of int16 keys is two's complement order, both directions |
| KeyEncoding.SignedKeyOrder32 | src/common/types/row_chunk.cpp:111-115 | memcmp of int32 keys is two's complement order, both directions |
| KeyEncoding.SignedKeyOrder64 | src/common/types/row_chunk.cpp:117-121 | memcmp of int64 keys is two's complement order, both directions |
| KeyEncoding.UnsignedKeyOrder8 | src/common/types/row_chunk.cpp:123-126 | memcmp of uint8 keys is the unsigned comparison of the words, and the order of the numbers the keys denote, both directions |
| KeyEncoding.UnsignedKeyOrder16 | src/common/types/row_chunk.cpp:128-131 | memcmp of big-endian uint16 keys is the unsigned comparison of the words, and the order of the numbers the keys denote, both directions |
| KeyEncoding.UnsignedKeyOrder32 | src/common/types/row_chunk.cpp:133-136 | memcmp of big-endian uint32 keys is the unsigned comparison of the words, and the order of the numbers the keys denote, both directions |
| KeyEncoding.UnsignedKeyOrder64 | src/common/types/row_chunk.cpp:138-141 | memcmp of big-endian uint64 keys is the unsigned comparison of the words, and the order of the numbers the keys denote, both directions |
| KeyEncoding.EncodeFloatCases | src/common/types/row_chunk.cpp:42-67 | EncodeFloat maps both zeros to 2^31, +inf to UINT_MAX and -inf to 0; it sets the sign bit of a positive pattern and complements a negative one |
| KeyEncoding.EncodeDoubleCases | src/common/types/row_chunk.cpp:69-92 | the same cases for EncodeDouble with 2^63 |
| KeyEncoding.FloatKeyValue | src/common/types/row_chunk.cpp:42-67 | for every non-NaN float, the key's value is FloatKeyOfRank of its IEEE-754 rank, a map FloatKeyOfRankMonotone proves strictly increasing |
| KeyEncoding.DoubleKeyValue | src/common/types/row_chunk.cpp:69-92 | for every non-NaN double, the key's value is DoubleKeyOfRank of its IEEE-754 rank, a map DoubleKeyOfRankMonotone proves strictly increasing |
| KeyEncoding.FloatKeyOfRankMonotone | src/common/types/row_chunk.cpp:42-67 | the key map over ranks is strictly increasing between the infinities, both directions |
| KeyEncoding.DoubleKeyOfRankMonotone | src/common/types/row_chunk.cpp:69-92 | the key map over ranks is strictly increasing between the infinities, both directions |
| KeyEncoding.FloatKeyOrder | src/common/types/row_chunk.cpp:148-152 | memcmp of float keys orders non-NaN floats as IEEE-754 does, both directions |
| KeyEncoding.DoubleKeyOrder | src/common/types/row_chunk.cpp:154-158 | memcmp of double keys orders non-NaN doubles as IEEE-754 does, both directions |
| KeyEncoding.FloatKeyEqual | src/common/types/row_chunk.cpp:42-50 | two non-NaN floats get the same key exactly when they compare equal, so +0.0 and -0.0 share a key |
| KeyEncoding.DoubleKeyEqual | src/common/types/row_chunk.cpp:69-77 | two non-NaN doubles get the same key exactly when they compare equal |
| KeyEncoding.DoubleKeyExample | src/common/types/row_chunk.cpp:69-92 | concrete keys of -1.0, -0.0, +0.0 and 1.0: the zeros coincide and memcmp keeps the order |
| KeyEncoding.SortableTemplateSound | src/common/types/row_chunk.cpp:202-253 | the sortable dispatch accepts exactly the constant-size types, with a template of the type's own size; the others throw "FIXME: unimplemented deserialize" |
| KeyEncoding.EncodeData | src/common/types/row_chunk.cpp:94-165 | EncodeData throws exactly for hugeint_t (and interval_t, not modelled); it writes sizeof(T) bytes, and a string writes its bytes followed by a NUL |
| KeyEncoding.EncodeDataIsSortKey | src/common/types/row_chunk.cpp:94-158 | on either host, the bytes EncodeData writes are the host-independent big-endian sort key |
| KeyEncoding.SignedSortKeyOrder | src/common/types/row_chunk.cpp:99-121 | keys of signed integers are memcmp-ordered as the values, both directions |
| KeyEncoding.UnsignedSortKeyOrder | src/common/types/row_chunk.cpp:123-141 | keys of bools and unsigned integers are memcmp-ordered as the values (false before true; unsigned comparison), both directions |
| KeyEncoding.FloatingSortKeyOrder | src/common/types/row_chunk.cpp:148-158 | keys of non-NaN floats and doubles are memcmp-ordered as the values, both directions |
| KeyEncoding.SortKeyOrder | src/common/types/row_chunk.cpp:94-158 | for every orderable type and either host, memcmp of EncodeData's bytes is the value order (NaN aside) |
| KeyEncoding.BoolKeyOrder | src/common/types/row_chunk.cpp:94-97 | the bool key puts false before true |
| KeyEncoding.ValidityByte | src/common/types/row_chunk.cpp:178-185 | the validity byte is 0 when inverted and 1 otherwise, whatever the row's validity |
| KeyEncoding.ValidityByteIgnoresValidity | src/common/types/row_chunk.cpp:178-179 | a NULL row and a valid row get the same prefix byte |
| KeyEncoding.SortableRowBytes | src/common/types/row_chunk.cpp:176-198 | a row's sortable bytes are sizeof(T) plus one prefix byte when there are NULLs; they fail exactly for hugeint_t and interval_t |
| KeyEncoding.BoolTakesInt8Path | src/common/types/row_chunk.cpp:207-209 | BOOL is encoded through the int8_t template, so true becomes 0x81 and false 0x80, not the bool specialisation's 1 and 0 |
| KeyEncoding.Int32KeyExample | src/common/types/row_chunk.cpp:111-115 | concrete keys: enc(-5) < enc(0) < enc(5) in memcmp order on either host |
| RowMemory.WriteBytes | src/common/types/row_chunk.cpp:271 | a store puts its bytes at the address and changes nothing else |
| RowMemory.ClearMaskBit | src/common/types/row_chunk.cpp:286-288 | the mask update clears one bit of one byte and changes nothing else |
| RowMemory.ApplyWritesReadsPut | src/common/types/row_chunk.cpp:271 | with no two writes overlapping, every store's bytes survive all the writes |
| RowMemory.ApplyWritesReadsClearBit | src/common/types/row_chunk.cpp:286-288 | with no two writes overlapping, a cleared bit reads back as the original byte with that bit cleared |
| RowMemory.ApplyWritesUntouched | src/common/types/row_chunk.cpp:261-291 | bytes that no write touches keep their value |
| SortableRows.RowKey | src/common/types/row_chunk.cpp:181-190 | a row's key is sizeof(T) bytes, plus one when there are NULLs |
| SortableRows.RowKeySplit | src/common/types/row_chunk.cpp:185-189 | a row's key is the validity byte (if any) followed by EncodeData of the value its selections pick |
| SortableRows.SerializeRow | src/common/types/row_chunk.cpp:181-190 | one loop iteration stores the row's key and moves its location past it |
| SortableRows.SerializeKeyStep | src/common/types/row_chunk.cpp:181-190 | one iteration extends the serialised prefix by one row |
| SortableRows.SerializeKeys | src/common/types/row_chunk.cpp:172-200 | after the loop, memory holds every row's key and every location has moved past its key; the other locations are unchanged |
| SortableRows.TemplatedSerializeVectorSortable | src/common/types/row_chunk.cpp:172-200 | for an orderable type, Done, memory holds all keys, each of the first count locations moved by the key width and the rest unchanged; with no rows nothing changes; otherwise (hugeint_t, interval_t) the first row's validity byte goes out when there are NULLs, its location moves past it, and EncodeData's error is returned |
| SortableRows.SerializeVectorSortable | src/common/types/row_chunk.cpp:202-253 | VARCHAR, LIST and STRUCT throw "FIXME: unimplemented deserialize" and change nothing; every other type ends exactly as its template does (all keys written, or nothing for no rows, or the first row's validity byte and the error); INT128 with rows throws "hugeint_t encoding not implemented" |
| SortableRows.SortableSlotReadBack | src/common/types/row_chunk.cpp:172-200 | after serialisation, each row's slot holds its prefix byte and its value's big-endian key, on either host |
| SortableRows.SortableSlotsOrdered | src/common/types/row_chunk.cpp:172-200 | after serialisation, memcmp of any two rows' slots is the order of their values, both directions (NaN aside) |
| SortableRows.SerializeIndices | src/common/types/row_chunk.cpp:255-259 | row i's slot receives start + i as an idx_t, and the key locations do not move |
| SortableRows.IndexReadBack | src/common/types/row_chunk.cpp:255-259 | loading an idx_t from row i's slot gives start + i, modulo 2^64 |
| RowLayout.LoadStoreFixed | src/common/types/row_chunk.cpp:427-439 | Load<T> reads back what Store<T> wrote, and Store<T> writes sizeof(T) bytes |
| RowLayout.ReadStoredString | src/common/types/row_chunk.cpp:484-501 | a stored string's size loads back as its length, and its bytes follow |
| RowLayout.ReadStoredValue | src/common/types/row_chunk.cpp:427-501 | the reader finds a stored value and steps over exactly the bytes it occupies |
| RowLayout.StoreStringEntry | src/common/types/row_chunk.cpp:343-349 | the string's size and bytes land at the row's location, which moves past both |
| RowLayout.StoreFixedEntry | src/common/types/row_chunk.cpp:281-283 | the value lands at the row's location, which moves by sizeof(T) |
| RowLayout.MarkNull | src/common/types/row_chunk.cpp:285-288 | a NULL row clears its column's bit in its validity mask |
| RowLayout.SerializeRowData | src/common/types/row_chunk.cpp:277-289 | one iteration: the row's store, then its mask update; only its own location moves |
| RowLayout.SerializeRowStep | src/common/types/row_chunk.cpp:277-289 | one iteration extends the serialised prefix by one row |
| RowLayout.SerializeRows | src/common/types/row_chunk.cpp:261-291 | after the loop, memory holds every row's writes and every location has moved past its value |
| RowLayout.SerializeVectorData | src/common/types/row_chunk.cpp:293-361 | for vectors whose string sizes count their bytes, every row-serialisable type performs the row writes and advances the locations; LIST and STRUCT throw "FIXME: unimplemented serialize" and change nothing |
| RowLayout.RowWritesAt | src/common/types/row_chunk.cpp:277-289 | row i's store is write 2i and its mask update is write 2i+1 |
| RowLayout.RowValueReadBack | src/common/types/row_chunk.cpp:261-291 | with no two writes overlapping, reading at row i's start gives its value and steps over exactly its bytes |
| RowLayout.RowValidityReadBack | src/common/types/row_chunk.cpp:286-288 | with no two writes overlapping, row i's mask bit is set exactly when the row is valid and the bit was set before |
| RowLayout.LoadRowValue | src/common/types/row_chunk.cpp:427-501 | Load<T>, or the size and bytes of a string, at a location, and the width the reader advances |
| RowLayout.DeserializeRow | src/common/types/row_chunk.cpp:427-501 | one iteration yields the value at the row's location and its mask bit, and moves the location past the value |
| RowLayout.DeserializeIntoVectorData | src/common/types/row_chunk.cpp:441-505 | every row's value and validity are read at its location, which moves past it; LIST and STRUCT throw "FIXME: unimplemented deserialize" |
| RowLayout.SkipOverType | src/common/types/row_chunk.cpp:512-530 | each location moves by sizeof(T), or by 4 plus the stored string length; other types throw "FIXME: unimplemented SkipOverType" |
| RowLayout.SkipPassesStoredValue | src/common/types/row_chunk.cpp:512-530 | in the memory SerializeVectorData leaves (no two writes overlapping), SkipOverType's step at row i's start, sizeof(T) or 4 plus the size read there, is exactly the width of the value serialised for row i |
| RowAllocation.RowChunk.constructor | src/common/types/row_chunk.cpp:22-31 | a new chunk has no rows and no blocks, and keeps the given capacity, entry size and byte order |
| RowAllocation.RowChunk.Copy | src/common/types/row_chunk.cpp:33-36 | the copy has the other chunk's geometry and byte order, but no rows and no blocks |
| RowAllocation.RowChunk.AppendToBlock | src/common/types/row_chunk.cpp:371-378 | a block takes min(remaining, free entries) rows; its entry starts at the block's first free entry |
| RowAllocation.RowChunk.FillLastBlock | src/common/types/row_chunk.cpp:392-402 | the last block, if it has room, takes its share and yields one entry |
| RowAllocation.RowChunk.AddBlocks | src/common/types/row_chunk.cpp:403-413 | the loop adds new blocks and entries until no row remains |
| RowAllocation.RowChunk.Reserve | src/common/types/row_chunk.cpp:386-414 | the occupancies and entries are exactly those of Allocate and Entries |
| RowAllocation.RowChunk.Build | src/common/types/row_chunk.cpp:380-425 | returns the old count and adds n rows; blocks follow Allocate; the first n key locations are Locations and the rest are untouched; the chunk stays valid |
| RowAllocation.SetKeyLocations | src/common/types/row_chunk.cpp:416-423 | the key-location loop writes each entry's rows entry_size bytes apart, in order |
| RowAllocation.ExpandEntry | src/common/types/row_chunk.cpp:418-422 | one entry's rows get baseptr, baseptr + entry_size, and so on |
| RowAllocation.AllocateConserves | src/common/types/row_chunk.cpp:380-414 | the block occupancies grow by exactly the rows added |
| RowAllocation.AllocateBounded | src/common/types/row_chunk.cpp:373 | no block ever holds more than its capacity |
| RowAllocation.AllocateShape | src/common/types/row_chunk.cpp:392-413 | old blocks other than the last are untouched; every new block but the last is full; no new block is empty; adding nothing changes nothing |
| RowAllocation.GrowPrefix | src/common/types/row_chunk.cpp:403-413 | new blocks come after the existing ones and leave them alone |
| RowAllocation.GrowFills | src/common/types/row_chunk.cpp:403-413 | every new block but the last is full, and none is empty |
| RowAllocation.EntriesTotal | src/common/types/row_chunk.cpp:386-413 | the entries cover exactly the rows added |
| RowAllocation.EntriesFresh | src/common/types/row_chunk.cpp:374-376 | each entry starts at its block's first free byte before the call and runs up to the block's new occupancy |
| RowAllocation.EntriesIncreasing | src/common/types/row_chunk.cpp:392-413 | the entries go to strictly increasing blocks |
| RowAllocation.LocationsFresh | src/common/types/row_chunk.cpp:380-425 | every key location lies in space the call reserved: after the block's old rows and within its new occupancy |
| RowAllocation.LocationsStrided | src/common/types/row_chunk.cpp:416-423 | the first location is the last block's first free entry, or a new block's start; consecutive rows in one block are entry_size apart |
| RowAllocation.LocationsDistinct | src/common/types/row_chunk.cpp:380-425 | with a positive entry size, no key location is handed out twice |
| PartialBlocks.PartialBlockForCheckpoint.constructor | src/storage/table/column_checkpoint_state.cpp:25-29 | the record takes the segment's block and has the segment as its only member, at offset 0 |
| PartialBlocks.PartialBlockForCheckpoint.AddUninitializedRegion | src/storage/table/column_checkpoint_state.cpp:40-42 | one more region to zero; nothing else changes, and the record is valid after exactly when it was before |
| PartialBlocks.PartialBlockForCheckpoint.AddSegmentToTail | src/storage/table/column_checkpoint_state.cpp:115-117 | one more member at a 32-bit offset; nothing else changes; joining a non-empty tail keeps validity as it was, and a first member leaves the record valid exactly when the block is set, has the block size and the member sits at offset 0 |
| PartialBlocks.PartialBlockForCheckpoint.Clear | src/storage/table/column_checkpoint_state.cpp:82-86 | no regions, no block, no members; the record counts as flushed |
| PartialBlocks.PartialBlockForCheckpoint.ZeroFill | src/storage/table/column_checkpoint_state.cpp:49-57 | the block's bytes become FlushImage: regions and free tail zeroed |
| PartialBlocks.PartialBlockForCheckpoint.PersistTail | src/storage/table/column_checkpoint_state.cpp:65-78 | the calls are a version bump per member, a write through the first member and a mark for each other member |
| PartialBlocks.PartialBlockForCheckpoint.Flush | src/storage/table/column_checkpoint_state.cpp:44-80 | a flushed record throws and changes nothing; otherwise the block is zero-filled, gets a block id if it had none, is persisted once, and the record is cleared |
| PartialBlocks.PartialBlockForCheckpoint.AppendShiftedRegions | src/storage/table/column_checkpoint_state.cpp:101-105 | other's regions, moved by the offset, join this record's |
| PartialBlocks.PartialBlockForCheckpoint.AppendShiftedTail | src/storage/table/column_checkpoint_state.cpp:108-110 | other's members, at their offset plus the merge offset (32-bit), join this record's tail |
| PartialBlocks.PartialBlockForCheckpoint.Merge | src/storage/table/column_checkpoint_state.cpp:88-113 | other's bytes land at the offset; other loses its regions but keeps its members; the receiver ends cleared |
| PartialBlocks.ZeroRegionsBytes | src/storage/table/column_checkpoint_state.cpp:51-53 | after the region memsets, a byte is zero exactly when a region covers it, and is unchanged otherwise |
| PartialBlocks.FlushImageBytes | src/storage/table/column_checkpoint_state.cpp:49-57 | after Flush's memsets, a byte is zero when a region or the free tail covers it, and is unchanged otherwise |
| PartialBlocks.FlushImageNothing | src/storage/table/column_checkpoint_state.cpp:49 | with no region and no free space, the block's bytes are untouched |
| PartialBlocks.PersistCallsShape | src/storage/table/column_checkpoint_state.cpp:65-78 | member i bumps its column's version, then the first member is converted to persistent and the others are marked at their offsets |
| PartialBlocks.PersistCallsWriteOnce | src/storage/table/column_checkpoint_state.cpp:65-78 | a non-empty tail makes exactly one physical block write |
| PartialBlocks.ShiftRegions | src/storage/table/column_checkpoint_state.cpp:101-105 | moved regions start offset bytes later and keep their length |
| PartialBlocks.ShiftTail | src/storage/table/column_checkpoint_state.cpp:108-110 | moved members keep their column and segment; their offset is the old one plus the shift, truncated to 32 bits |
| PartialBlocks.Truncate32 | src/storage/table/column_checkpoint_state.cpp:115 | uint32_t truncation keeps offsets below 2^32 and is the identity on them |
| PartialBlocks.Memset | src/storage/table/column_checkpoint_state.cpp:53-56 | memset zeroes exactly the given range |
| PartialBlocks.Memcpy | src/storage/table/column_checkpoint_state.cpp:97 | memcpy puts the source's first bytes at the offset and leaves the rest of the target alone |
| ColumnCheckpoint.AppendContiguous | src/storage/table/column_checkpoint_state.cpp:179-182 | appending a pointer keeps the list contiguous exactly when it starts where the last pointer's rows end |
| ColumnCheckpoint.ContiguousRowStarts | src/storage/table/column_checkpoint_state.cpp:179-182 | in a contiguous list, pointer k starts at the row group's start plus the rows of the pointers before it |
| ColumnCheckpoint.ContiguousDisjoint | src/storage/table/column_checkpoint_state.cpp:179-184 | with no empty pointer, the pointers' row ranges come in order and do not overlap |
| ColumnCheckpoint.Resize | src/storage/table/column_checkpoint_state.cpp:158 | the segment gets a fresh buffer of the new size that starts with its old contents |
| ColumnCheckpoint.ColumnCheckpointState.constructor | src/storage/table/column_checkpoint_state.cpp:12-15 | a new checkpoint state has no statistics, segments, pointers or registered blocks |
| ColumnCheckpoint.ColumnCheckpointState.FlushConstant | src/storage/table/column_checkpoint_state.cpp:166-173 | a constant segment gets the constant compression and is persisted without a block |
| ColumnCheckpoint.ColumnCheckpointState.Reuse | src/storage/table/column_checkpoint_state.cpp:141-165 | the segment's bytes are copied into the open block at the offset; the segment joins its tail; the allocation is registered |
| ColumnCheckpoint.ColumnCheckpointState.NewBlock | src/storage/table/column_checkpoint_state.cpp:152-165 | the segment's buffer grows to a block; a fresh partial block with the segment as its only member is registered |
| ColumnCheckpoint.ColumnCheckpointState.AppendPointer | src/storage/table/column_checkpoint_state.cpp:186-189 | the segment joins the new tree and its pointer the list, keeping the list contiguous |
| ColumnCheckpoint.ColumnCheckpointState.FlushSegment | src/storage/table/column_checkpoint_state.cpp:119-190 | an empty segment changes nothing; otherwise the statistics are merged and the pointer continues the row range. A constant segment gets no block. A reused block receives the segment's bytes at the offset, gains the segment as a member, stays valid and otherwise keeps its state, and the segment is untouched. A new block is the segment's buffer grown to the block size with its old bytes kept, in a fresh valid record with the segment as its only member, no regions and the allocated block id |

## Left out

- **Orrify and the vector wrappers.** `Vector::Orrify`, SerializeVectorSortable's own Orrify call, SerializeVector and DeserializeIntoVector wrap the modelled functions. The model takes a `VectorData` directly, and deserialised values are returned as sequences. `StringVector::AddString` and the target vector are not part of this model.
- **NaN.** The float and double order lemmas leave NaN out: EncodeFloat and EncodeDouble give NaN a key, but IEEE-754 gives NaN no place in the order.
- **The inner layout of hugeint_t and interval_t.** Both are kept as 16 raw bytes. EncodeData for hugeint_t throws as in the source. interval_t has no EncodeData specialisation in the modelled file; the model returns a `NotModelled` error for it.
- **The string EncodeData specialisations.** These are the `string_t` and `const char *` ones. They are modelled as bytes-plus-NUL, but no template reaches them: the sortable switch throws for VARCHAR.
- **The RowChunk constructor's byte-order detection.** The host's byte order is a constructor parameter instead.
- **Locking, pinning and buffer handles.** This covers `rc_lock`, `buffer_manager.Pin` and the `BufferHandle`s. They are not modelled: Build's allocation is modelled as one atomic step.
- **Aliasing between memory and key locations.** Every serialiser requires that memory and the key-location array are distinct objects.
- **RowAllocation.RowChunk.Build** requires a positive block capacity when rows are added. With capacity 0 the source's loop never ends.
- **RowLayout.SerializeVectorData** writes nothing for a NULL VARCHAR row when there are no mask locations. The source would dereference a null pointer there.
- **ByteOrder.Unsigned32 and ByteOrder.Unsigned64** are the numbers a word's big-endian bytes denote. Unsigned32Order and Unsigned64Order prove that they order words exactly as the unsigned comparison of the words does, and the Injective lemmas prove that they tell words apart. Their equality with the word's numeric value `x as int` is proved only for 8- and 16-bit words (ByteValueIsNumeric, Unsigned16IsNumeric): converting a 32- or 64-bit bit-vector to an integer is beyond the solver's resource budget. Signed32, Signed64 and the float and double magnitudes are built on these numbers.
- **PartialBlocks.PartialBlockForCheckpoint.Merge** adds the offset to region bounds without wrapping at 2^64. Only member offsets are truncated, to 32 bits, as in AddSegmentToTail.
- **The block size.** `Storage::BLOCK_SIZE` is taken as 262144 − 8. The file that defines it is not part of this model.
- **The persisted block handle.** The block handle after `ConvertToPersistent` is modelled as the block id.
- **Calls into other classes.** `IncrementVersion`, `ConvertToPersistent` and `MarkAsPersistent` are returned as `Call` events rather than performed. `GetFreeBlockId` is a parameter of Flush. `GetBlockAllocation` is a parameter of FlushSegment, and `RegisterPartialBlock` is recorded in the `registered` list.
- **Statistics.** The statistics merge (`global_stats->Merge`) is recorded as the list of statistics merged, so the RangeError of an invalid aggregate is not modelled. `GetStatistics` (a move out of `global_stats`) is not modelled.
- **ColumnCheckpoint.Resize** leaves the bytes past the old size unspecified. The resize lives in the column segment, which is not part of this model.
- **WriteDataPointers.** It only forwards to the row group writer, which is not part of this model.
- **The partial block destructor's assertion.** The destructor's `D_ASSERT` is not modelled.

## Quirks reproduced

- **BOOL takes the int8_t path.** SerializeVectorSortable sends BOOL through the int8_t template, so true's key is 0x81 and false's is 0x80 (`KeyEncoding.BoolTakesInt8Path`).
- **The validity byte ignores validity.** The valid and invalid validity bytes are both `invert ? 0 : 1`, so the prefix never separates NULLs (`KeyEncoding.ValidityByteIgnoresValidity`).
- **The row-data validity check uses the loop position.** Both row-data serialisers ask `RowIsValid(i)` for the row's position in the loop, not for its source index.
- **VARCHAR ignores the outer selection.** The VARCHAR case of SerializeVectorData reads `vdata.sel->get_index(i)` and never uses the outer selection vector.
- **Misleading error message.** For an unsupported type, the sortable dispatch throws "FIXME: unimplemented deserialize".
- **SerializeIndices leaves the key locations where they were.**
- **EncodeFloat keeps the pattern in a 64-bit buffer.** The complement of a negative float is taken on 64 bits and truncated on return. The result equals the 32-bit complement.
- **Merge clears the receiver.** It ends with `Clear()` on the receiving record, while `other` loses only its uninitialised regions and keeps its members.
