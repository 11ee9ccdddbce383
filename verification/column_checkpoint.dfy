/**
  The checkpoint of one column of a row group (ColumnCheckpointState).
  FlushSegment takes the column's segments one at a time: it drops empty
  ones, merges each segment's statistics into the column's, gives a
  constant segment no bytes on disk, and otherwise places the segment's
  bytes in a partial block, either one that already holds other segments
  or a new one made from the segment's own buffer. Every flushed segment
  gets a data pointer; together they cover the row group's rows
  contiguously, starting at the row group's first row.

  The partial block manager is outside this code: the allocation it would
  hand out is a parameter, and the allocations handed back to it
  (RegisterPartialBlock) are recorded in order. Merging statistics is
  recorded as the list of statistics merged.
 */
module ColumnCheckpoint {
  import opened Types
  import opened PartialBlocks

  /** DataPointer: a persisted segment's statistics, place on disk, rows and compression. */
  datatype DataPointer = DataPointer(
    stats: Statistics, blockId: int, offset: nat, rowStart: nat, tupleCount: nat, compression: CompressionType)

  /** PartialBlockAllocation: the block id and offset for a segment, and the partial block to reuse, if any. */
  datatype Allocation = Allocation(blockId: int, offsetInBlock: nat, partialBlock: Option<PartialBlockForCheckpoint>)

  /** The row the next data pointer starts at: the row group's start, or right after the last pointer's rows. */
  function NextRowStart(rowGroupStart: nat, pointers: seq<DataPointer>): nat {
    if |pointers| == 0 then rowGroupStart
    else pointers[|pointers| - 1].rowStart + pointers[|pointers| - 1].tupleCount
  }

  /** The first pointer starts at the row group's start and each other right after its predecessor. */
  predicate Contiguous(rowGroupStart: nat, pointers: seq<DataPointer>) {
    (|pointers| > 0 ==> pointers[0].rowStart == rowGroupStart) &&
    forall i :: 0 <= i < |pointers| - 1 ==> pointers[i + 1].rowStart == pointers[i].rowStart + pointers[i].tupleCount
  }

  /** The rows the pointers cover. */
  function Rows(pointers: seq<DataPointer>): nat
    decreases |pointers|
  {
    if |pointers| == 0 then 0 else Rows(pointers[..|pointers| - 1]) + pointers[|pointers| - 1].tupleCount
  }

  /** Appending a pointer keeps the list contiguous exactly when it starts at NextRowStart. */
  lemma AppendContiguous(rowGroupStart: nat, pointers: seq<DataPointer>, p: DataPointer)
    requires Contiguous(rowGroupStart, pointers)
    ensures Contiguous(rowGroupStart, pointers + [p]) <==> p.rowStart == NextRowStart(rowGroupStart, pointers)
  {
    var q := pointers + [p];
    if |pointers| > 0 {
      assert q[|pointers| - 1] == pointers[|pointers| - 1] && q[|pointers|] == p;
    }
    if p.rowStart == NextRowStart(rowGroupStart, pointers) {
      forall i | 0 <= i < |q| - 1
        ensures q[i + 1].rowStart == q[i].rowStart + q[i].tupleCount
      {
        if i + 1 < |pointers| {
          assert q[i] == pointers[i] && q[i + 1] == pointers[i + 1];
        }
      }
    }
  }

  /**
    In a contiguous list, pointer k starts after the rows of the pointers
    before it, and the next pointer would start after all of them.
   */
  lemma {:induction false} ContiguousRowStarts(rowGroupStart: nat, pointers: seq<DataPointer>)
    requires Contiguous(rowGroupStart, pointers)
    ensures forall k :: 0 <= k < |pointers| ==> pointers[k].rowStart == rowGroupStart + Rows(pointers[..k])
    ensures NextRowStart(rowGroupStart, pointers) == rowGroupStart + Rows(pointers)
    decreases |pointers|
  {
    if |pointers| > 0 {
      var prefix := pointers[..|pointers| - 1];
      assert Contiguous(rowGroupStart, prefix) by {
        forall i | 0 <= i < |prefix| - 1
          ensures prefix[i + 1].rowStart == prefix[i].rowStart + prefix[i].tupleCount
        {
          assert prefix[i] == pointers[i] && prefix[i + 1] == pointers[i + 1];
        }
      }
      ContiguousRowStarts(rowGroupStart, prefix);
      forall k | 0 <= k < |pointers|
        ensures pointers[k].rowStart == rowGroupStart + Rows(pointers[..k])
      {
        if k < |prefix| {
          assert pointers[..k] == prefix[..k];
        } else {
          assert pointers[..k] == prefix;
          if k > 0 {
            assert prefix[..k - 1] == pointers[..k - 1];
            assert Rows(prefix) == Rows(pointers[..k - 1]) + pointers[k - 1].tupleCount;
          }
        }
      }
      assert pointers[..|pointers| - 1] == prefix;
    }
  }

  /** With no empty pointer, the row ranges of a contiguous list come in order and do not overlap. */
  lemma {:induction false} ContiguousDisjoint(rowGroupStart: nat, pointers: seq<DataPointer>)
    requires Contiguous(rowGroupStart, pointers)
    requires forall i :: 0 <= i < |pointers| ==> pointers[i].tupleCount > 0
    ensures forall i, j :: 0 <= i < j < |pointers| ==> pointers[i].rowStart + pointers[i].tupleCount <= pointers[j].rowStart
    ensures forall i, j :: 0 <= i < j < |pointers| ==> pointers[i].rowStart < pointers[j].rowStart
  {
    forall i, j | 0 <= i < j < |pointers|
      ensures pointers[i].rowStart + pointers[i].tupleCount <= pointers[j].rowStart
    {
      RowStartsGrow(pointers, i, j);
    }
  }

  lemma {:induction false} RowStartsGrow(pointers: seq<DataPointer>, i: nat, j: nat)
    requires i < j < |pointers|
    requires forall k :: 0 <= k < |pointers| - 1 ==> pointers[k + 1].rowStart == pointers[k].rowStart + pointers[k].tupleCount
    ensures pointers[i].rowStart + pointers[i].tupleCount <= pointers[j].rowStart
    decreases j - i
  {
    if j > i + 1 {
      RowStartsGrow(pointers, i, j - 1);
    }
  }

  /** The objects FlushSegment may change in the allocation: the reused partial block and its buffer. */
  function AllocationFrame(allocation: Allocation): set<object>
    reads if allocation.partialBlock.Some? then {allocation.partialBlock.value} else {}
  {
    if allocation.partialBlock.Some?
    then {allocation.partialBlock.value, allocation.partialBlock.value.buffer}
    else {}
  }

  /**
    What GetBlockAllocation guarantees for a segment of `segmentSize` bytes:
    a 32-bit offset; a reused partial block is still open, holds other data
    before the offset and has room for the segment after it; a new block
    starts at offset 0 and is at least as large as the segment's buffer.
   */
  ghost predicate AllocationFits(allocation: Allocation, segment: ColumnSegment, segmentSize: nat)
    reads segment
    reads if allocation.partialBlock.Some? then {allocation.partialBlock.value} else {}
  {
    allocation.offsetInBlock < UINT32_RANGE &&
    match allocation.partialBlock
    case Some(p) =>
      0 < allocation.offsetInBlock && allocation.offsetInBlock + segmentSize <= BLOCK_SIZE &&
      p.Valid() && !p.IsFlushed() && segmentSize <= segment.buffer.Length && p.buffer != segment.buffer
    case None =>
      allocation.offsetInBlock == 0 && segment.buffer.Length <= BLOCK_SIZE
  }

  /** ColumnSegment::Resize: a fresh buffer of `size` bytes that starts with the old contents. */
  method Resize(segment: ColumnSegment, size: nat)
    requires segment.buffer.Length <= size
    modifies segment
    ensures fresh(segment.buffer) && segment.buffer.Length == size
    ensures segment.buffer[..old(segment.buffer.Length)] == old(segment.buffer[..])
    ensures segment.count == old(segment.count) && segment.stats == old(segment.stats)
    ensures segment.compression == old(segment.compression)
  {
    var grown := new bv8[size];
    Memcpy(grown, 0, segment.buffer, segment.buffer.Length);
    segment.buffer := grown;
  }

  class ColumnCheckpointState {
    /** row_group.start. */
    const rowGroupStart: nat
    /** The column (column_data), by identity. */
    const column: nat
    /** The statistics merged into global_stats, in order. */
    var mergedStats: seq<Statistics>
    /** new_tree. */
    var newTree: seq<ColumnSegment>
    /** data_pointers. */
    var dataPointers: seq<DataPointer>
    /** The allocations handed to RegisterPartialBlock, in order. */
    var registered: seq<Allocation>

    /** One pointer per segment of the new tree, none empty, contiguous from the row group's start. */
    ghost predicate Valid()
      reads this
    {
      Contiguous(rowGroupStart, dataPointers) &&
      |newTree| == |dataPointers| == |mergedStats| &&
      forall i :: 0 <= i < |dataPointers| ==> dataPointers[i].tupleCount > 0
    }

    constructor (rowGroupStart: nat, column: nat)
      ensures Valid()
      ensures this.rowGroupStart == rowGroupStart && this.column == column
      ensures mergedStats == [] && newTree == [] && dataPointers == [] && registered == []
    {
      this.rowGroupStart := rowGroupStart;
      this.column := column;
      mergedStats := [];
      newTree := [];
      dataPointers := [];
      registered := [];
    }

    /** The constant shortcut: the constant compression function, and persistence without a block. */
    method FlushConstant(segment: ColumnSegment) returns (calls: seq<Call>)
      modifies segment
      ensures calls == [ConvertToPersistent(segment, INVALID_BLOCK)]
      ensures segment.compression == Constant
      ensures segment.count == old(segment.count) && segment.stats == old(segment.stats)
      ensures segment.buffer == old(segment.buffer)
    {
      segment.compression := Constant;
      calls := [ConvertToPersistent(segment, INVALID_BLOCK)];
    }

    /** The reuse path: copy the segment's bytes into the open partial block and join its tail. */
    method Reuse(segment: ColumnSegment, segmentSize: nat, allocation: Allocation)
      requires allocation.partialBlock.Some? && AllocationFits(allocation, segment, segmentSize)
      modifies this, AllocationFrame(allocation)
      ensures var p := allocation.partialBlock.value;
              p.Valid() && !p.IsFlushed() &&
              p.segments == old(p.segments) + [TailEntry(column, segment, allocation.offsetInBlock)] &&
              p.regions == old(p.regions) && p.blockId == old(p.blockId) &&
              p.buffer == old(p.buffer) && p.hasBlock == old(p.hasBlock) &&
              p.buffer[..] == old(p.buffer[..allocation.offsetInBlock]) + segment.buffer[..segmentSize] +
                              old(p.buffer[allocation.offsetInBlock + segmentSize..])
      ensures registered == old(registered) + [allocation]
      ensures mergedStats == old(mergedStats) && newTree == old(newTree) && dataPointers == old(dataPointers)
    {
      var p := allocation.partialBlock.value;
      Memcpy(p.buffer, allocation.offsetInBlock, segment.buffer, segmentSize);
      p.AddSegmentToTail(column, segment, allocation.offsetInBlock);
      registered := registered + [allocation];
    }

    /** The new-block path: grow the segment's buffer to a full block and make a partial block of it. */
    method NewBlock(segment: ColumnSegment, allocation: Allocation)
      requires allocation.partialBlock.None? && AllocationFits(allocation, segment, 0)
      modifies this, segment
      ensures segment.buffer.Length == BLOCK_SIZE
      ensures segment.buffer[..old(segment.buffer.Length)] == old(segment.buffer[..])
      ensures old(segment.buffer.Length) == BLOCK_SIZE ==> segment.buffer == old(segment.buffer)
      ensures segment.count == old(segment.count) && segment.stats == old(segment.stats)
      ensures segment.compression == old(segment.compression)
      ensures |registered| == |old(registered)| + 1 && registered[..|old(registered)|] == old(registered)
      ensures var a := registered[|old(registered)|];
              a.blockId == allocation.blockId && a.offsetInBlock == 0 && a.partialBlock.Some? &&
              fresh(a.partialBlock.value) && a.partialBlock.value.Valid() &&
              a.partialBlock.value.segments == [TailEntry(column, segment, 0)] &&
              a.partialBlock.value.regions == [] && a.partialBlock.value.buffer == segment.buffer &&
              a.partialBlock.value.blockId == allocation.blockId
      ensures mergedStats == old(mergedStats) && newTree == old(newTree) && dataPointers == old(dataPointers)
    {
      if segment.buffer.Length != BLOCK_SIZE {
        Resize(segment, BLOCK_SIZE);
      }
      var p := new PartialBlockForCheckpoint(column, segment, allocation.blockId);
      registered := registered + [allocation.(partialBlock := Some(p))];
    }

    /**
      FlushSegment: an empty segment changes nothing. Otherwise the
      segment's statistics are merged, its bytes placed (constant: nowhere;
      reuse: in the allocated partial block; new: in a new partial block),
      and the segment and its data pointer appended, the pointer starting
      right after the previous one's rows.
     */
    method FlushSegment(segment: ColumnSegment, segmentSize: nat, allocation: Allocation) returns (calls: seq<Call>)
      requires Valid() && segmentSize <= BLOCK_SIZE
      requires segment.count > 0 && !segment.stats.isConstant ==> AllocationFits(allocation, segment, segmentSize)
      modifies this, segment, AllocationFrame(allocation)
      ensures old(segment.count) == 0 ==>
                calls == [] && unchanged(this) && unchanged(segment) && unchanged(old(AllocationFrame(allocation)))
      ensures Valid()
      ensures old(segment.count) > 0 ==>
                mergedStats == old(mergedStats) + [segment.stats] &&
                newTree == old(newTree) + [segment] &&
                |dataPointers| == |old(dataPointers)| + 1 && dataPointers[..|old(dataPointers)|] == old(dataPointers) &&
                dataPointers[|old(dataPointers)|].stats == old(segment.stats) &&
                dataPointers[|old(dataPointers)|].rowStart == NextRowStart(rowGroupStart, old(dataPointers)) &&
                dataPointers[|old(dataPointers)|].tupleCount == old(segment.count) &&
                dataPointers[|old(dataPointers)|].compression == segment.compression
      ensures old(segment.count) > 0 && old(segment.stats.isConstant) ==>
                calls == [ConvertToPersistent(segment, INVALID_BLOCK)] &&
                dataPointers[|old(dataPointers)|].blockId == INVALID_BLOCK &&
                dataPointers[|old(dataPointers)|].offset == 0 &&
                segment.compression == Constant &&
                registered == old(registered) && unchanged(old(AllocationFrame(allocation)))
      ensures old(segment.count) > 0 && !old(segment.stats.isConstant) ==>
                calls == [] &&
                dataPointers[|old(dataPointers)|].blockId == allocation.blockId &&
                dataPointers[|old(dataPointers)|].offset == allocation.offsetInBlock &&
                segment.compression == old(segment.compression) &&
                |registered| == |old(registered)| + 1 && registered[..|old(registered)|] == old(registered) &&
                registered[|old(registered)|].partialBlock.Some?
      ensures old(segment.count) > 0 && !old(segment.stats.isConstant) && allocation.partialBlock.Some? ==>
                var p := allocation.partialBlock.value;
                registered[|old(registered)|] == allocation &&
                p.Valid() && !p.IsFlushed() &&
                p.segments == old(p.segments) + [TailEntry(column, segment, allocation.offsetInBlock)] &&
                p.regions == old(p.regions) && p.blockId == old(p.blockId) &&
                p.buffer == old(p.buffer) && p.hasBlock == old(p.hasBlock) &&
                p.buffer[..] == old(p.buffer[..allocation.offsetInBlock]) + old(segment.buffer[..segmentSize]) +
                                old(p.buffer[allocation.offsetInBlock + segmentSize..]) &&
                unchanged(segment)
      ensures old(segment.count) > 0 && !old(segment.stats.isConstant) && allocation.partialBlock.None? ==>
                var a := registered[|old(registered)|];
                segment.buffer.Length == BLOCK_SIZE &&
                segment.buffer[..old(segment.buffer.Length)] == old(segment.buffer[..]) &&
                (old(segment.buffer.Length) == BLOCK_SIZE ==> segment.buffer == old(segment.buffer)) &&
                segment.count == old(segment.count) && segment.stats == old(segment.stats) &&
                a.blockId == allocation.blockId && a.offsetInBlock == 0 &&
                fresh(a.partialBlock.value) && a.partialBlock.value.Valid() &&
                a.partialBlock.value.segments == [TailEntry(column, segment, 0)] &&
                a.partialBlock.value.regions == [] && a.partialBlock.value.buffer == segment.buffer &&
                a.partialBlock.value.blockId == allocation.blockId
    {
      var tupleCount := segment.count;
      if tupleCount == 0 {
        return [];
      }
      mergedStats := mergedStats + [segment.stats];
      var blockId := INVALID_BLOCK;
      var offsetInBlock := 0;
      calls := [];
      if !segment.stats.isConstant {
        blockId := allocation.blockId;
        offsetInBlock := allocation.offsetInBlock;
        if allocation.partialBlock.Some? {
          Reuse(segment, segmentSize, allocation);
        } else {
          NewBlock(segment, allocation);
        }
      } else {
        calls := FlushConstant(segment);
      }
      AppendPointer(segment, DataPointer(segment.stats, blockId, offsetInBlock,
                                         NextRowStart(rowGroupStart, dataPointers), tupleCount, segment.compression));
    }

    /** new_tree.AppendSegment and data_pointers.push_back. */
    method AppendPointer(segment: ColumnSegment, pointer: DataPointer)
      requires Contiguous(rowGroupStart, dataPointers) && |newTree| == |dataPointers| == |mergedStats| - 1
      requires forall i :: 0 <= i < |dataPointers| ==> dataPointers[i].tupleCount > 0
      requires pointer.rowStart == NextRowStart(rowGroupStart, dataPointers) && pointer.tupleCount > 0
      modifies this
      ensures Valid()
      ensures newTree == old(newTree) + [segment] && dataPointers == old(dataPointers) + [pointer]
      ensures mergedStats == old(mergedStats) && registered == old(registered)
    {
      AppendContiguous(rowGroupStart, dataPointers, pointer);
      newTree := newTree + [segment];
      dataPointers := dataPointers + [pointer];
    }
  }
}
