/**
  The partial block of a checkpoint (PartialBlockForCheckpoint): one
  disk-bound block shared by several column segments. It keeps the byte
  ranges of the block that nobody initialised, and the tail: the
  (column, segment, offset) triples of the segments whose bytes live in the
  block. Flush zero-fills the gaps, writes the block once through its first
  segment and marks the others persistent at their offsets; Merge copies
  another partial block into this one.

  The block manager and the segments' own persistence are outside this
  code: their calls are returned as a list of `Call`s, and the fresh block
  id the block manager would hand out is a parameter.
 */
module PartialBlocks {
  import opened Types

  /** Storage::BLOCK_SIZE: a block of 256 KiB less its 8-byte checksum header. */
  const BLOCK_SIZE: nat := 262144 - 8

  /** block_id_t's sentinel for "no block". */
  const INVALID_BLOCK: int := -1

  /** A byte range [start, end) of the block that still has to be zeroed. */
  datatype Region = Region(start: nat, end: nat)

  /** The compression function of a segment; only the constant one matters here. */
  datatype CompressionType = Constant | Other(code: nat)

  /** A segment's statistics, as far as this code looks into them. */
  datatype Statistics = Statistics(id: nat, isConstant: bool)

  /** A column segment: its row count, statistics, buffer and compression function. */
  class ColumnSegment {
    var count: nat
    var stats: Statistics
    var buffer: array<bv8>
    var compression: CompressionType
  }

  /** A tail member: a column (by identity), one of its segments and the segment's offset in the block. */
  datatype TailEntry = TailEntry(column: nat, segment: ColumnSegment, offset: nat)

  /** The calls into code outside this model, in the order they are made. */
  datatype Call =
    | IncrementVersion(column: nat)
    | ConvertToPersistent(segment: ColumnSegment, blockId: int)
    | MarkAsPersistent(segment: ColumnSegment, blockId: int, offset: nat)

  /** uint32_t truncation of an offset. */
  function Truncate32(x: nat): (r: nat)
    ensures r < UINT32_RANGE
    ensures x < UINT32_RANGE ==> r == x
  {
    x % UINT32_RANGE
  }

  // ---------------------------------------------------------------------------
  // What Flush writes into the block

  /** The bytes with [start, end) set to 0. */
  function Zeroed(bytes: seq<bv8>, start: nat, end: nat): seq<bv8> {
    seq(|bytes|, k requires 0 <= k < |bytes| => if start <= k < end then 0 else bytes[k])
  }

  /** Some region covers byte k. */
  predicate Covered(regions: seq<Region>, k: nat) {
    exists r :: 0 <= r < |regions| && regions[r].start <= k < regions[r].end
  }

  /** Every region lies inside the block. */
  predicate RegionsFit(regions: seq<Region>) {
    forall r :: 0 <= r < |regions| ==> regions[r].start <= regions[r].end <= BLOCK_SIZE
  }

  /** The bytes after one memset per region, in order. */
  function ZeroRegions(bytes: seq<bv8>, regions: seq<Region>): seq<bv8>
    decreases |regions|
  {
    if |regions| == 0 then bytes
    else
      var last := regions[|regions| - 1];
      Zeroed(ZeroRegions(bytes, regions[..|regions| - 1]), last.start, last.end)
  }

  /** The block after Flush's memsets: every region, then the last free_space_left bytes. */
  function FlushImage(bytes: seq<bv8>, regions: seq<Region>, freeSpaceLeft: nat): seq<bv8>
    requires freeSpaceLeft <= BLOCK_SIZE
  {
    Zeroed(ZeroRegions(bytes, regions), BLOCK_SIZE - freeSpaceLeft, BLOCK_SIZE)
  }

  /** Byte k after the region memsets is zero exactly when a region covers it, and unchanged otherwise. */
  lemma {:induction false} ZeroRegionsBytes(bytes: seq<bv8>, regions: seq<Region>)
    ensures |ZeroRegions(bytes, regions)| == |bytes|
    ensures forall k :: 0 <= k < |bytes| ==>
              ZeroRegions(bytes, regions)[k] == if Covered(regions, k) then 0 else bytes[k]
    decreases |regions|
  {
    if |regions| > 0 {
      var prefix := regions[..|regions| - 1];
      var last := regions[|regions| - 1];
      ZeroRegionsBytes(bytes, prefix);
      forall k | 0 <= k < |bytes|
        ensures ZeroRegions(bytes, regions)[k] == if Covered(regions, k) then 0 else bytes[k]
      {
        if Covered(prefix, k) {
          var r :| 0 <= r < |prefix| && prefix[r].start <= k < prefix[r].end;
          assert regions[r] == prefix[r];
        } else if last.start <= k < last.end {
          assert regions[|regions| - 1] == last;
        } else if Covered(regions, k) {
          var r :| 0 <= r < |regions| && regions[r].start <= k < regions[r].end;
          assert false;
        }
      }
    }
  }

  /**
    Flush zero-fills every byte a region covers and the last
    free_space_left bytes of the block, and leaves every other byte as it was.
   */
  lemma FlushImageBytes(bytes: seq<bv8>, regions: seq<Region>, freeSpaceLeft: nat)
    requires freeSpaceLeft <= BLOCK_SIZE
    ensures |FlushImage(bytes, regions, freeSpaceLeft)| == |bytes|
    ensures forall k :: 0 <= k < |bytes| ==>
              FlushImage(bytes, regions, freeSpaceLeft)[k] ==
                if Covered(regions, k) || (BLOCK_SIZE - freeSpaceLeft <= k < BLOCK_SIZE) then 0 else bytes[k]
  {
    ZeroRegionsBytes(bytes, regions);
  }

  /** With no region and no free space, Flush leaves the block's bytes alone. */
  lemma FlushImageNothing(bytes: seq<bv8>)
    ensures FlushImage(bytes, [], 0) == bytes
  {
    assert ZeroRegions(bytes, []) == bytes;
  }

  // ---------------------------------------------------------------------------
  // What Flush asks of the segments

  /**
    The calls of Flush's loop over the tail: each member's column gets a
    new version; the first member writes the block, the others are marked
    persistent at their offsets.
   */
  function PersistCalls(tail: seq<TailEntry>, blockId: int): seq<Call>
    decreases |tail|
  {
    if |tail| == 0 then []
    else PersistCalls(tail[..|tail| - 1], blockId) + PersistCall(tail, |tail| - 1, blockId)
  }

  /** The two calls for tail member i. */
  function PersistCall(tail: seq<TailEntry>, i: nat, blockId: int): seq<Call>
    requires i < |tail|
  {
    [IncrementVersion(tail[i].column)] +
    if i == 0 then [ConvertToPersistent(tail[i].segment, blockId)]
    else [MarkAsPersistent(tail[i].segment, blockId, tail[i].offset)]
  }

  /** The number of physical block writes among the calls. */
  function Writes(calls: seq<Call>): nat
    decreases |calls|
  {
    if |calls| == 0 then 0
    else Writes(calls[..|calls| - 1]) + (if calls[|calls| - 1].ConvertToPersistent? then 1 else 0)
  }

  lemma {:induction false} WritesConcat(a: seq<Call>, b: seq<Call>)
    ensures Writes(a + b) == Writes(a) + Writes(b)
    decreases |b|
  {
    if |b| == 0 {
      assert a + b == a;
    } else {
      assert (a + b)[..|a + b| - 1] == a + b[..|b| - 1];
      WritesConcat(a, b[..|b| - 1]);
    }
  }

  /**
    The calls of Flush, member by member: two per member, a version bump
    for its column, then the write of the whole block for the first member
    and a mark at the member's own offset for every other.
   */
  lemma {:induction false} PersistCallsShape(tail: seq<TailEntry>, blockId: int)
    ensures var calls := PersistCalls(tail, blockId);
            |calls| == 2 * |tail| &&
            forall i :: 0 <= i < |tail| ==>
              calls[2 * i] == IncrementVersion(tail[i].column) &&
              calls[2 * i + 1] == if i == 0 then ConvertToPersistent(tail[i].segment, blockId)
                                  else MarkAsPersistent(tail[i].segment, blockId, tail[i].offset)
    decreases |tail|
  {
    if |tail| > 0 {
      var prefix := tail[..|tail| - 1];
      PersistCallsShape(prefix, blockId);
      var calls := PersistCalls(tail, blockId);
      forall i | 0 <= i < |prefix|
        ensures PersistCall(prefix, i, blockId) == PersistCall(tail, i, blockId)
      {
        assert prefix[i] == tail[i];
      }
    }
  }

  /** A tail of n members makes exactly one block write, so the shared block goes to disk once. */
  lemma {:induction false} PersistCallsWriteOnce(tail: seq<TailEntry>, blockId: int)
    ensures Writes(PersistCalls(tail, blockId)) == if |tail| == 0 then 0 else 1
    decreases |tail|
  {
    if |tail| > 0 {
      var prefix := tail[..|tail| - 1];
      var i := |tail| - 1;
      PersistCallsWriteOnce(prefix, blockId);
      WritesConcat(PersistCalls(prefix, blockId), PersistCall(tail, i, blockId));
      var pair := PersistCall(tail, i, blockId);
      assert |pair| == 2 && pair[..1] == [IncrementVersion(tail[i].column)];
      assert pair[1].ConvertToPersistent? <==> i == 0;
      assert Writes(pair[..1]) == 0 by {
        assert pair[..1][..0] == [];
      }
      assert Writes(pair) == if i == 0 then 1 else 0;
    }
  }

  // ---------------------------------------------------------------------------
  // What Merge appends

  /** Regions moved `offset` bytes further into the block. */
  function ShiftRegions(regions: seq<Region>, offset: nat): (r: seq<Region>)
    ensures |r| == |regions|
    ensures forall i :: 0 <= i < |r| ==>
              r[i].start == regions[i].start + offset && r[i].end - r[i].start == regions[i].end - regions[i].start
  {
    seq(|regions|, i requires 0 <= i < |regions| => Region(regions[i].start + offset, regions[i].end + offset))
  }

  /** Tail members moved `offset` bytes further; the new offset is truncated to 32 bits. */
  function ShiftTail(tail: seq<TailEntry>, offset: nat): (r: seq<TailEntry>)
    ensures |r| == |tail|
    ensures forall i :: 0 <= i < |r| ==>
              r[i].column == tail[i].column && r[i].segment == tail[i].segment && r[i].offset < UINT32_RANGE &&
              (tail[i].offset + offset < UINT32_RANGE ==> r[i].offset == tail[i].offset + offset)
  {
    seq(|tail|, i requires 0 <= i < |tail| => TailEntry(tail[i].column, tail[i].segment, Truncate32(tail[i].offset + offset)))
  }

  // ---------------------------------------------------------------------------
  // Byte copies

  /** memset(buffer + start, 0, len). */
  method Memset(buffer: array<bv8>, start: nat, len: nat)
    requires start + len <= buffer.Length
    modifies buffer
    ensures buffer[..] == Zeroed(old(buffer[..]), start, start + len)
  {
    var k := start;
    while k < start + len
      invariant start <= k <= start + len
      invariant buffer[..] == Zeroed(old(buffer[..]), start, k)
    {
      buffer[k] := 0;
      k := k + 1;
    }
  }

  /** memcpy(target + offset, source, len). */
  method Memcpy(target: array<bv8>, offset: nat, source: array<bv8>, len: nat)
    requires target != source && offset + len <= target.Length && len <= source.Length
    modifies target
    ensures target[..] == old(target[..offset]) + source[..len] + old(target[offset + len..])
  {
    var k := 0;
    while k < len
      invariant 0 <= k <= len
      invariant forall i :: 0 <= i < target.Length ==>
                  target[i] == if offset <= i < offset + k then source[i - offset] else old(target[i])
    {
      target[offset + k] := source[k];
      k := k + 1;
    }
    ghost var want := old(target[..offset]) + source[..len] + old(target[offset + len..]);
    assert forall i :: 0 <= i < target.Length ==> target[i] == want[i];
  }

  // ---------------------------------------------------------------------------
  // The record

  class PartialBlockForCheckpoint {
    /** state.block_id: the on-disk id, or INVALID_BLOCK until Flush assigns one. */
    var blockId: int
    /** The pinned buffer of `block`. */
    var buffer: array<bv8>
    /** `block` is set (Clear resets it). */
    var hasBlock: bool
    /** uninitialized_regions. */
    var regions: seq<Region>
    /** The tail (`segments`). */
    var segments: seq<TailEntry>

    /** IsFlushed: segments are cleared on Flush. */
    predicate IsFlushed()
      reads this
    {
      segments == []
    }

    /** While members remain, the block is set, has the block size, and the first member sits at offset 0. */
    ghost predicate Valid()
      reads this
    {
      segments != [] ==> hasBlock && buffer.Length == BLOCK_SIZE && segments[0].offset == 0
    }

    /** A record for `segment`'s block with the segment as its only member, at offset 0. */
    constructor (column: nat, segment: ColumnSegment, blockId: int)
      requires segment.buffer.Length == BLOCK_SIZE
      ensures Valid() && !IsFlushed()
      ensures this.blockId == blockId && buffer == segment.buffer && hasBlock
      ensures regions == [] && segments == [TailEntry(column, segment, 0)]
    {
      this.blockId := blockId;
      buffer := segment.buffer;
      hasBlock := true;
      regions := [];
      segments := [TailEntry(column, segment, 0)];
    }

    /** AddUninitializedRegion: remember that [start, end) still has to be zeroed. */
    method AddUninitializedRegion(start: nat, end: nat)
      modifies this
      ensures Valid() == old(Valid())
      ensures regions == old(regions) + [Region(start, end)]
      ensures segments == old(segments) && blockId == old(blockId)
      ensures buffer == old(buffer) && hasBlock == old(hasBlock)
    {
      regions := regions + [Region(start, end)];
    }

    /** AddSegmentToTail: one more member, at a 32-bit offset. */
    method AddSegmentToTail(column: nat, segment: ColumnSegment, offsetInBlock: nat)
      requires offsetInBlock < UINT32_RANGE
      modifies this
      ensures old(segments) != [] ==> (Valid() <==> old(Valid()))
      ensures old(segments) == [] ==> (Valid() <==> hasBlock && buffer.Length == BLOCK_SIZE && offsetInBlock == 0)
      ensures segments == old(segments) + [TailEntry(column, segment, offsetInBlock)]
      ensures regions == old(regions) && blockId == old(blockId)
      ensures buffer == old(buffer) && hasBlock == old(hasBlock)
    {
      segments := segments + [TailEntry(column, segment, offsetInBlock)];
    }

    /** Clear: no regions, no block, no members; the record is flushed. */
    method Clear()
      modifies this
      ensures regions == [] && !hasBlock && segments == [] && IsFlushed()
      ensures blockId == old(blockId) && buffer == old(buffer)
    {
      regions := [];
      hasBlock := false;
      segments := [];
    }

    /** The memsets of Flush: each uninitialised region, then the free space at the end of the block. */
    method ZeroFill(freeSpaceLeft: nat)
      requires hasBlock && buffer.Length == BLOCK_SIZE
      requires freeSpaceLeft <= BLOCK_SIZE && RegionsFit(regions)
      modifies buffer
      ensures buffer[..] == FlushImage(old(buffer[..]), regions, freeSpaceLeft)
    {
      var r := 0;
      while r < |regions|
        invariant 0 <= r <= |regions|
        invariant buffer[..] == ZeroRegions(old(buffer[..]), regions[..r])
      {
        assert regions[..r + 1][..r] == regions[..r];
        Memset(buffer, regions[r].start, regions[r].end - regions[r].start);
        r := r + 1;
      }
      assert regions[..r] == regions;
      Memset(buffer, BLOCK_SIZE - freeSpaceLeft, freeSpaceLeft);
    }

    /** The loop of Flush: a version bump for every member, the write through the first, marks for the rest. */
    method PersistTail() returns (calls: seq<Call>)
      ensures calls == PersistCalls(segments, blockId)
    {
      calls := [];
      var i := 0;
      while i < |segments|
        invariant 0 <= i <= |segments|
        invariant calls == PersistCalls(segments[..i], blockId)
      {
        var member := segments[i];
        calls := calls + [IncrementVersion(member.column)];
        if i == 0 {
          calls := calls + [ConvertToPersistent(member.segment, blockId)];
        } else {
          calls := calls + [MarkAsPersistent(member.segment, blockId, member.offset)];
        }
        assert segments[..i + 1][..i] == segments[..i];
        assert PersistCall(segments[..i + 1], i, blockId) == PersistCall(segments, i, blockId);
        i := i + 1;
      }
      assert segments[..i] == segments;
    }

    /**
      Flush: throws on a flushed record; otherwise zero-fills, takes a
      fresh block id when it has none, persists the tail and clears the
      record. `freshBlockId` is what GetFreeBlockId would return.
     */
    method Flush(freeSpaceLeft: nat, freshBlockId: int) returns (outcome: Outcome, calls: seq<Call>)
      requires Valid()
      requires !IsFlushed() ==> freeSpaceLeft <= BLOCK_SIZE && RegionsFit(regions)
      modifies this, buffer
      ensures Valid()
      ensures old(IsFlushed()) ==>
                outcome == Failed(Internal("Flush called on partial block that was already flushed")) &&
                calls == [] && unchanged(this) && unchanged(buffer)
      ensures !old(IsFlushed()) ==>
                outcome == Done &&
                buffer == old(buffer) &&
                buffer[..] == FlushImage(old(buffer[..]), old(regions), freeSpaceLeft) &&
                blockId == (if old(blockId) == INVALID_BLOCK then freshBlockId else old(blockId)) &&
                calls == PersistCalls(old(segments), blockId) &&
                regions == [] && !hasBlock && segments == []
    {
      if IsFlushed() {
        return Failed(Internal("Flush called on partial block that was already flushed")), [];
      }
      if freeSpaceLeft > 0 || regions != [] {
        ZeroFill(freeSpaceLeft);
      } else {
        FlushImageNothing(buffer[..]);
      }
      if blockId == INVALID_BLOCK {
        blockId := freshBlockId;
      }
      calls := PersistTail();
      Clear();
      outcome := Done;
    }

    /** The region loop of Merge: other's regions, moved by `offset`, join this record's. */
    method AppendShiftedRegions(moved: seq<Region>, offset: nat)
      modifies this
      ensures regions == old(regions) + ShiftRegions(moved, offset)
      ensures segments == old(segments) && blockId == old(blockId)
      ensures buffer == old(buffer) && hasBlock == old(hasBlock)
    {
      var r := 0;
      while r < |moved|
        invariant 0 <= r <= |moved|
        invariant regions == old(regions) + ShiftRegions(moved[..r], offset)
        invariant segments == old(segments) && blockId == old(blockId)
        invariant buffer == old(buffer) && hasBlock == old(hasBlock)
      {
        regions := regions + [Region(moved[r].start + offset, moved[r].end + offset)];
        assert ShiftRegions(moved[..r + 1], offset) == ShiftRegions(moved[..r], offset) + [Region(moved[r].start + offset, moved[r].end + offset)];
        r := r + 1;
      }
      assert moved[..r] == moved;
    }

    /** The segment loop of Merge: other's members join the tail at their offset plus `offset`. */
    method AppendShiftedTail(moved: seq<TailEntry>, offset: nat)
      modifies this
      ensures segments == old(segments) + ShiftTail(moved, offset)
      ensures regions == old(regions) && blockId == old(blockId)
      ensures buffer == old(buffer) && hasBlock == old(hasBlock)
    {
      var i := 0;
      while i < |moved|
        invariant 0 <= i <= |moved|
        invariant segments == old(segments) + ShiftTail(moved[..i], offset)
        invariant regions == old(regions) && blockId == old(blockId)
        invariant buffer == old(buffer) && hasBlock == old(hasBlock)
      {
        var member := moved[i];
        AddSegmentToTail(member.column, member.segment, Truncate32(member.offset + offset));
        assert ShiftTail(moved[..i + 1], offset) == ShiftTail(moved[..i], offset) + [TailEntry(member.column, member.segment, Truncate32(member.offset + offset))];
        i := i + 1;
      }
      assert moved[..i] == moved;
    }

    /**
      Merge: copies other_size bytes of other's block to `offset` in this
      block, moves other's regions and members over, clears other's regions
      and then clears this record, as the source does: the receiver ends
      flushed and other keeps its members.
     */
    method Merge(other: PartialBlockForCheckpoint, offset: nat, otherSize: nat)
      requires other != this && hasBlock && other.hasBlock && other.buffer != buffer
      requires offset + otherSize <= buffer.Length && otherSize <= other.buffer.Length
      modifies this, buffer, other
      ensures buffer == old(buffer)
      ensures buffer[..] == old(buffer[..offset]) + old(other.buffer[..otherSize]) + old(buffer[offset + otherSize..])
      ensures regions == [] && !hasBlock && segments == [] && blockId == old(blockId)
      ensures other.regions == [] && other.segments == old(other.segments) && other.blockId == old(other.blockId)
      ensures other.buffer == old(other.buffer) && other.hasBlock == old(other.hasBlock)
    {
      Memcpy(buffer, offset, other.buffer, otherSize);
      AppendShiftedRegions(other.regions, offset);
      AppendShiftedTail(other.segments, offset);
      other.regions := [];
      Clear();
    }
  }
}
