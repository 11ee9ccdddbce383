/**
  RowChunk's slot allocator. A row chunk is a list of row blocks of equal
  capacity; each block records how many of its entries are occupied.
  Build(n) fills the last block up to its capacity, appends new blocks
  until all n rows have a place, and then hands out one location per new
  row: runs of entries (BlockAppendEntry) expanded into consecutive
  addresses entry_size bytes apart.

  The functions below state what one call produces from the occupancies
  before it; the class RowChunk performs it step by step.
 */
module RowAllocation {

  /** Where a row lives: the block and the byte offset of its entry in the block's buffer. */
  datatype RowPointer = RowPointer(block: nat, offset: nat)

  /** BlockAppendEntry: `count` rows starting at byte `baseptr` of block `block`. */
  datatype AppendEntry = AppendEntry(block: nat, baseptr: nat, count: nat)

  /** MinValue<idx_t>. */
  function Min(a: nat, b: nat): (m: nat)
    ensures m <= a && m <= b && (m == a || m == b)
  {
    if a <= b then a else b
  }

  function Sum(s: seq<nat>): nat
    decreases |s|
  {
    if |s| == 0 then 0 else Sum(s[..|s| - 1]) + s[|s| - 1]
  }

  /** No block holds more than its capacity. */
  predicate Bounded(blocks: seq<nat>, cap: nat) {
    forall b :: 0 <= b < |blocks| ==> blocks[b] <= cap
  }

  /** The occupancy of block b before a call; blocks the call creates start empty. */
  function Before(blocks: seq<nat>, b: nat): nat {
    if b < |blocks| then blocks[b] else 0
  }

  // ---------------------------------------------------------------------------
  // What Build does, as functions of the occupancies before the call

  /** The last block exists and has a free entry. */
  predicate LastHasRoom(blocks: seq<nat>, cap: nat) {
    |blocks| > 0 && blocks[|blocks| - 1] < cap
  }

  /** The rows that go to the last block. */
  function FirstAppend(blocks: seq<nat>, cap: nat, n: nat): (a: nat)
    ensures a <= n
    ensures LastHasRoom(blocks, cap) ==> blocks[|blocks| - 1] + a <= cap
    ensures !LastHasRoom(blocks, cap) ==> a == 0
  {
    if LastHasRoom(blocks, cap) then Min(n, cap - blocks[|blocks| - 1]) else 0
  }

  /** The occupancies once the last block took its share. */
  function FilledLast(blocks: seq<nat>, cap: nat, n: nat): (r: seq<nat>)
    ensures |r| == |blocks|
  {
    if LastHasRoom(blocks, cap) then blocks[|blocks| - 1 := blocks[|blocks| - 1] + FirstAppend(blocks, cap, n)]
    else blocks
  }

  /** The occupancies after the remaining `n` rows went to new blocks, each filled up to `cap`. */
  function Grow(blocks: seq<nat>, cap: nat, n: nat): seq<nat>
    requires n == 0 || cap > 0
    decreases n
  {
    if n == 0 then blocks else Grow(blocks + [Min(n, cap)], cap, n - Min(n, cap))
  }

  /** The append entries of the new blocks; a new block's entries start at byte 0. */
  function GrowEntries(blocks: seq<nat>, cap: nat, n: nat): seq<AppendEntry>
    requires n == 0 || cap > 0
    decreases n
  {
    if n == 0 then []
    else [AppendEntry(|blocks|, 0, Min(n, cap))] + GrowEntries(blocks + [Min(n, cap)], cap, n - Min(n, cap))
  }

  /** Block occupancies after Build(n). */
  function Allocate(blocks: seq<nat>, cap: nat, n: nat): seq<nat>
    requires n == 0 || cap > 0
  {
    Grow(FilledLast(blocks, cap, n), cap, n - FirstAppend(blocks, cap, n))
  }

  /** The append entries of Build(n): the last block's (when it has room), then one per new block. */
  function Entries(blocks: seq<nat>, cap: nat, entrySize: nat, n: nat): seq<AppendEntry>
    requires n == 0 || cap > 0
  {
    (if LastHasRoom(blocks, cap)
     then [AppendEntry(|blocks| - 1, blocks[|blocks| - 1] * entrySize, FirstAppend(blocks, cap, n))]
     else []) +
    GrowEntries(FilledLast(blocks, cap, n), cap, n - FirstAppend(blocks, cap, n))
  }

  /** The locations of one entry's rows, entry_size bytes apart. */
  function EntryLocations(e: AppendEntry, entrySize: nat): (r: seq<RowPointer>)
    ensures |r| == e.count
    ensures forall j :: 0 <= j < e.count ==> r[j] == RowPointer(e.block, e.baseptr + j * entrySize)
  {
    seq(e.count, j requires 0 <= j < e.count => RowPointer(e.block, e.baseptr + j * entrySize))
  }

  /** The rows the entries cover. */
  function Total(entries: seq<AppendEntry>): nat
    decreases |entries|
  {
    if |entries| == 0 then 0 else Total(entries[..|entries| - 1]) + entries[|entries| - 1].count
  }

  /** The key locations of all entries, in order. */
  function Expand(entries: seq<AppendEntry>, entrySize: nat): (r: seq<RowPointer>)
    ensures |r| == Total(entries)
    decreases |entries|
  {
    if |entries| == 0 then []
    else Expand(entries[..|entries| - 1], entrySize) + EntryLocations(entries[|entries| - 1], entrySize)
  }

  /** The key locations Build(n) hands out. */
  function Locations(blocks: seq<nat>, cap: nat, entrySize: nat, n: nat): (r: seq<RowPointer>)
    requires n == 0 || cap > 0
    ensures |r| == n
  {
    EntriesTotal(blocks, cap, entrySize, n);
    Expand(Entries(blocks, cap, entrySize, n), entrySize)
  }

  // ---------------------------------------------------------------------------
  // The class

  class RowChunk {
    /** Rows allocated so far. */
    var count: nat
    /** The occupancy (RowDataBlock::count) of each block, in order. */
    var blocks: seq<nat>
    /** RowDataBlock::CAPACITY of every block. */
    const blockCapacity: nat
    const entrySize: nat
    const isLittleEndian: bool

    /** The occupancies account for every row and none exceeds the capacity. */
    ghost predicate Valid()
      reads this
    {
      Sum(blocks) == count && Bounded(blocks, blockCapacity)
    }

    /** A chunk without blocks; the host's byte order is a parameter. */
    constructor (blockCapacity: nat, entrySize: nat, isLittleEndian: bool)
      ensures Valid() && count == 0 && blocks == []
      ensures this.blockCapacity == blockCapacity && this.entrySize == entrySize
      ensures this.isLittleEndian == isLittleEndian
    {
      count := 0;
      blocks := [];
      this.blockCapacity := blockCapacity;
      this.entrySize := entrySize;
      this.isLittleEndian := isLittleEndian;
    }

    /** RowChunk(RowChunk &other): the same geometry and byte order, but no rows and no blocks. */
    constructor Copy(other: RowChunk)
      ensures Valid() && count == 0 && blocks == []
      ensures blockCapacity == other.blockCapacity && entrySize == other.entrySize
      ensures isLittleEndian == other.isLittleEndian
    {
      count := 0;
      blocks := [];
      blockCapacity := other.blockCapacity;
      entrySize := other.entrySize;
      isLittleEndian := other.isLittleEndian;
    }

    /**
      AppendToBlock: block b takes as many of the remaining rows as it has
      room for; their entry starts at the block's first free entry.
     */
    method AppendToBlock(b: nat, remaining: nat, entries: seq<AppendEntry>) returns (appended: nat, entries': seq<AppendEntry>)
      requires b < |blocks| && blocks[b] <= blockCapacity
      modifies this
      ensures appended == Min(remaining, blockCapacity - old(blocks[b]))
      ensures blocks == old(blocks)[b := old(blocks[b]) + appended] && count == old(count)
      ensures entries' == entries + [AppendEntry(b, old(blocks[b]) * entrySize, appended)]
    {
      appended := Min(remaining, blockCapacity - blocks[b]);
      entries' := entries + [AppendEntry(b, blocks[b] * entrySize, appended)];
      blocks := blocks[b := blocks[b] + appended];
    }

    /** The first step of Build: the last block, when it has room, takes its share of the rows. */
    method FillLastBlock(added: nat) returns (remaining: nat, entries: seq<AppendEntry>)
      requires Bounded(blocks, blockCapacity)
      modifies this
      ensures blocks == FilledLast(old(blocks), blockCapacity, added) && count == old(count)
      ensures remaining == added - FirstAppend(old(blocks), blockCapacity, added)
      ensures entries == if LastHasRoom(old(blocks), blockCapacity)
                         then [AppendEntry(|old(blocks)| - 1, old(blocks)[|old(blocks)| - 1] * entrySize,
                                           FirstAppend(old(blocks), blockCapacity, added))]
                         else []
    {
      entries := [];
      remaining := added;
      if |blocks| > 0 && blocks[|blocks| - 1] < blockCapacity {
        var appended;
        appended, entries := AppendToBlock(|blocks| - 1, remaining, entries);
        remaining := remaining - appended;
      }
    }

    /** The loop of Build: new blocks, each taking as many of the remaining rows as fit. */
    method AddBlocks(remaining: nat, entries: seq<AppendEntry>) returns (entries': seq<AppendEntry>)
      requires remaining == 0 || blockCapacity > 0
      modifies this
      ensures blocks == Grow(old(blocks), blockCapacity, remaining) && count == old(count)
      ensures entries' == entries + GrowEntries(old(blocks), blockCapacity, remaining)
    {
      var left := remaining;
      entries' := entries;
      while left > 0
        invariant left == 0 || blockCapacity > 0
        invariant count == old(count)
        invariant Grow(blocks, blockCapacity, left) == Grow(old(blocks), blockCapacity, remaining)
        invariant entries' + GrowEntries(blocks, blockCapacity, left) == entries + GrowEntries(old(blocks), blockCapacity, remaining)
        decreases left
      {
        // RowDataBlock new_block(...): a block with no rows yet, appended after AppendToBlock in the source.
        ghost var before := blocks;
        blocks := blocks + [0];
        var appended;
        appended, entries' := AppendToBlock(|blocks| - 1, left, entries');
        left := left - appended;
        assert blocks == before + [appended];
      }
    }

    /** The allocation half of Build: fill the last block, then add blocks; returns the append entries. */
    method Reserve(added: nat) returns (entries: seq<AppendEntry>)
      requires Bounded(blocks, blockCapacity) && (added == 0 || blockCapacity > 0)
      modifies this
      ensures blocks == Allocate(old(blocks), blockCapacity, added) && count == old(count)
      ensures entries == Entries(old(blocks), blockCapacity, entrySize, added)
    {
      var remaining;
      remaining, entries := FillLastBlock(added);
      entries := AddBlocks(remaining, entries);
    }

    /**
      Build: reserves places for `added` rows and writes their locations to
      keyLocations[0 .. added); returns the row count before the call. A
      capacity of 0 would make the source loop forever once a row has to
      go to a new block, so that is excluded.
     */
    method Build(added: nat, keyLocations: array<RowPointer>) returns (startingCount: nat)
      requires Valid() && added <= keyLocations.Length && (added == 0 || blockCapacity > 0)
      modifies this, keyLocations
      ensures Valid()
      ensures startingCount == old(count) && count == old(count) + added
      ensures blocks == Allocate(old(blocks), blockCapacity, added)
      ensures keyLocations[..added] == Locations(old(blocks), blockCapacity, entrySize, added)
      ensures forall k :: added <= k < keyLocations.Length ==> keyLocations[k] == old(keyLocations[k])
    {
      AllocateConserves(blocks, blockCapacity, added);
      AllocateBounded(blocks, blockCapacity, added);
      EntriesTotal(blocks, blockCapacity, entrySize, added);
      startingCount := count;
      count := count + added;
      var entries := Reserve(added);
      SetKeyLocations(entries, entrySize, keyLocations);
    }
  }

  // ---------------------------------------------------------------------------
  // Properties of the allocation

  /** Build conserves rows: the occupancies grow by exactly the rows added. */
  lemma AllocateConserves(blocks: seq<nat>, cap: nat, n: nat)
    requires n == 0 || cap > 0
    ensures Sum(Allocate(blocks, cap, n)) == Sum(blocks) + n
  {
    if LastHasRoom(blocks, cap) {
      SumUpdateLast(blocks, blocks[|blocks| - 1] + FirstAppend(blocks, cap, n));
    }
    GrowSum(FilledLast(blocks, cap, n), cap, n - FirstAppend(blocks, cap, n));
  }

  /** No block ever holds more rows than its capacity. */
  lemma AllocateBounded(blocks: seq<nat>, cap: nat, n: nat)
    requires n == 0 || cap > 0
    requires Bounded(blocks, cap)
    ensures Bounded(Allocate(blocks, cap, n), cap)
  {
    GrowBounded(FilledLast(blocks, cap, n), cap, n - FirstAppend(blocks, cap, n));
  }

  lemma {:induction false} GrowSum(blocks: seq<nat>, cap: nat, n: nat)
    requires n == 0 || cap > 0
    ensures Sum(Grow(blocks, cap, n)) == Sum(blocks) + n
    decreases n
  {
    if n > 0 {
      var m := Min(n, cap);
      SumSnoc(blocks, m);
      GrowSum(blocks + [m], cap, n - m);
    }
  }

  lemma {:induction false} GrowBounded(blocks: seq<nat>, cap: nat, n: nat)
    requires n == 0 || cap > 0
    requires Bounded(blocks, cap)
    ensures Bounded(Grow(blocks, cap, n), cap)
    decreases n
  {
    if n > 0 {
      var m := Min(n, cap);
      assert Bounded(blocks + [m], cap);
      GrowBounded(blocks + [m], cap, n - m);
    }
  }

  /** New blocks come after the existing ones, which they leave alone. */
  lemma {:induction false} GrowPrefix(blocks: seq<nat>, cap: nat, n: nat)
    requires n == 0 || cap > 0
    ensures |Grow(blocks, cap, n)| >= |blocks|
    ensures forall i :: 0 <= i < |blocks| ==> Grow(blocks, cap, n)[i] == blocks[i]
    decreases n
  {
    if n > 0 {
      GrowPrefix(blocks + [Min(n, cap)], cap, n - Min(n, cap));
    }
  }

  /** Every new block but the last is full, and none is empty. */
  lemma {:induction false} GrowFills(blocks: seq<nat>, cap: nat, n: nat)
    requires n == 0 || cap > 0
    ensures var g := Grow(blocks, cap, n);
            (forall i :: |blocks| <= i < |g| - 1 ==> g[i] == cap) &&
            (forall i :: |blocks| <= i < |g| ==> 0 < g[i] <= cap)
    decreases n
  {
    if n > 0 {
      var m := Min(n, cap);
      var g := Grow(blocks, cap, n);
      GrowFills(blocks + [m], cap, n - m);
      GrowPrefix(blocks + [m], cap, n - m);
      if n - m > 0 {
        GrowMore(blocks + [m], cap, n - m);
      }
      assert g[|blocks|] == m;
    }
  }

  /** Rows left over for new blocks make at least one. */
  lemma GrowMore(blocks: seq<nat>, cap: nat, n: nat)
    requires cap > 0 && n > 0
    ensures |Grow(blocks, cap, n)| > |blocks|
  {
    GrowPrefix(blocks + [Min(n, cap)], cap, n - Min(n, cap));
  }

  /**
    The shape of the allocation: the existing blocks stay where they are and
    only the last one gains rows; that block is filled up before any new
    block is added; every new block but the last is full and none is empty;
    adding no rows adds no block.
   */
  lemma AllocateShape(blocks: seq<nat>, cap: nat, n: nat)
    requires n == 0 || cap > 0
    requires Bounded(blocks, cap)
    ensures var a := Allocate(blocks, cap, n);
            |a| >= |blocks| &&
            (forall i :: 0 <= i < |blocks| - 1 ==> a[i] == blocks[i]) &&
            (|blocks| > 0 ==> a[|blocks| - 1] >= blocks[|blocks| - 1]) &&
            (forall i :: 0 <= i < |a| - 1 && |blocks| <= i + 1 ==> a[i] == cap) &&
            (forall i :: |blocks| <= i < |a| ==> a[i] > 0) &&
            (n == 0 ==> a == blocks)
  {
    var f := FilledLast(blocks, cap, n);
    var r := n - FirstAppend(blocks, cap, n);
    var a := Allocate(blocks, cap, n);
    GrowPrefix(f, cap, r);
    GrowFills(f, cap, r);
    if |blocks| > 0 && |a| > |blocks| {
      assert r > 0;
      assert a[|blocks| - 1] == f[|blocks| - 1];
      if LastHasRoom(blocks, cap) {
        assert FirstAppend(blocks, cap, n) == cap - blocks[|blocks| - 1];
      }
      assert f[|blocks| - 1] == cap;
    }
    if n == 0 {
      assert f == blocks;
    }
  }

  lemma SumSnoc(s: seq<nat>, x: nat)
    ensures Sum(s + [x]) == Sum(s) + x
  {
    assert (s + [x])[..|s|] == s;
  }

  lemma SumUpdateLast(s: seq<nat>, x: nat)
    requires |s| > 0
    ensures Sum(s[|s| - 1 := x]) + s[|s| - 1] == Sum(s) + x
  {
    assert s[|s| - 1 := x][..|s| - 1] == s[..|s| - 1];
  }

  lemma {:induction false} TotalConcat(a: seq<AppendEntry>, b: seq<AppendEntry>)
    ensures Total(a + b) == Total(a) + Total(b)
    decreases |b|
  {
    if |b| == 0 {
      assert a + b == a;
    } else {
      assert (a + b)[..|a + b| - 1] == a + b[..|b| - 1];
      TotalConcat(a, b[..|b| - 1]);
    }
  }

  lemma {:induction false} GrowEntriesTotal(blocks: seq<nat>, cap: nat, n: nat)
    requires n == 0 || cap > 0
    ensures Total(GrowEntries(blocks, cap, n)) == n
    decreases n
  {
    if n > 0 {
      var m := Min(n, cap);
      var e := AppendEntry(|blocks|, 0, m);
      GrowEntriesTotal(blocks + [m], cap, n - m);
      TotalConcat([e], GrowEntries(blocks + [m], cap, n - m));
      assert Total([e]) == m by {
        assert [e][..0] == [];
      }
    }
  }

  /** Build(n)'s entries cover exactly n rows. */
  lemma EntriesTotal(blocks: seq<nat>, cap: nat, entrySize: nat, n: nat)
    requires n == 0 || cap > 0
    ensures Total(Entries(blocks, cap, entrySize, n)) == n
  {
    var first := FirstAppend(blocks, cap, n);
    var head: seq<AppendEntry> :=
      if LastHasRoom(blocks, cap) then [AppendEntry(|blocks| - 1, blocks[|blocks| - 1] * entrySize, first)] else [];
    assert Total(head) == first by {
      if LastHasRoom(blocks, cap) {
        assert head[..0] == [];
      }
    }
    GrowEntriesTotal(FilledLast(blocks, cap, n), cap, n - first);
    TotalConcat(head, GrowEntries(FilledLast(blocks, cap, n), cap, n - first));
  }

  /** The loop over the append entries: entry by entry, row by row, baseptr advancing by entry_size. */
  method SetKeyLocations(entries: seq<AppendEntry>, entrySize: nat, keyLocations: array<RowPointer>)
    requires Total(entries) <= keyLocations.Length
    modifies keyLocations
    ensures keyLocations[..Total(entries)] == Expand(entries, entrySize)
    ensures forall k :: Total(entries) <= k < keyLocations.Length ==> keyLocations[k] == old(keyLocations[k])
  {
    var appendIdx := 0;
    var e := 0;
    while e < |entries|
      invariant 0 <= e <= |entries|
      invariant appendIdx == Total(entries[..e]) <= Total(entries)
      invariant keyLocations[..appendIdx] == Expand(entries[..e], entrySize)
      invariant forall k :: Total(entries) <= k < keyLocations.Length ==> keyLocations[k] == old(keyLocations[k])
    {
      TotalPrefix(entries, e + 1);
      assert entries[..e + 1][..e] == entries[..e];
      appendIdx := ExpandEntry(entries[e], entrySize, keyLocations, appendIdx);
      e := e + 1;
    }
    assert entries[..e] == entries;
  }

  /** Prefixes of the entries cover no more rows than all of them. */
  lemma {:induction false} TotalPrefix(entries: seq<AppendEntry>, e: nat)
    requires e <= |entries|
    ensures Total(entries[..e]) <= Total(entries)
    decreases |entries|
  {
    if e < |entries| {
      assert entries[..|entries| - 1][..e] == entries[..e];
      TotalPrefix(entries[..|entries| - 1], e);
    } else {
      assert entries[..e] == entries;
    }
  }

  /** One append entry: key_locations[append_idx] = baseptr, baseptr += entry_size, for each of its rows. */
  method ExpandEntry(entry: AppendEntry, entrySize: nat, keyLocations: array<RowPointer>, start: nat) returns (next: nat)
    requires start + entry.count <= keyLocations.Length
    modifies keyLocations
    ensures next == start + entry.count
    ensures keyLocations[..next] == old(keyLocations[..start]) + EntryLocations(entry, entrySize)
    ensures forall k :: next <= k < keyLocations.Length ==> keyLocations[k] == old(keyLocations[k])
  {
    next := start + entry.count;
    var baseptr := entry.baseptr;
    var appendIdx := start;
    while appendIdx < next
      invariant start <= appendIdx <= next
      invariant baseptr == entry.baseptr + (appendIdx - start) * entrySize
      invariant keyLocations[..appendIdx] == old(keyLocations[..start]) + EntryLocations(entry, entrySize)[..appendIdx - start]
      invariant forall k :: appendIdx <= k < keyLocations.Length ==> keyLocations[k] == old(keyLocations[k])
    {
      keyLocations[appendIdx] := RowPointer(entry.block, baseptr);
      baseptr := baseptr + entrySize;
      appendIdx := appendIdx + 1;
    }
  }

  // ---------------------------------------------------------------------------
  // Properties of the key locations

  /** Each entry names a later block than the one before it. */
  predicate Increasing(entries: seq<AppendEntry>) {
    forall i, j :: 0 <= i < j < |entries| ==> entries[i].block < entries[j].block
  }

  /**
    Each entry starts at its block's first free entry before the call and
    runs up to the block's occupancy after it.
   */
  predicate Fresh(entries: seq<AppendEntry>, before: seq<nat>, after: seq<nat>, entrySize: nat) {
    forall i :: 0 <= i < |entries| ==>
      entries[i].block < |after| &&
      entries[i].baseptr == Before(before, entries[i].block) * entrySize &&
      Before(before, entries[i].block) + entries[i].count == after[entries[i].block]
  }

  /** The entries of the new blocks: one per new block, each from byte 0, covering the block's rows. */
  lemma GrowEntriesShape(blocks: seq<nat>, cap: nat, n: nat)
    requires n == 0 || cap > 0
    ensures |blocks| + |GrowEntries(blocks, cap, n)| == |Grow(blocks, cap, n)|
    ensures forall i :: 0 <= i < |GrowEntries(blocks, cap, n)| ==>
              GrowEntries(blocks, cap, n)[i] == AppendEntry(|blocks| + i, 0, Grow(blocks, cap, n)[|blocks| + i])
  {
    GrowEntriesLength(blocks, cap, n);
    forall i | 0 <= i < |GrowEntries(blocks, cap, n)|
      ensures GrowEntries(blocks, cap, n)[i] == AppendEntry(|blocks| + i, 0, Grow(blocks, cap, n)[|blocks| + i])
    {
      GrowEntryAt(blocks, cap, n, i);
    }
  }

  /** One entry per new block. */
  lemma {:induction false} GrowEntriesLength(blocks: seq<nat>, cap: nat, n: nat)
    requires n == 0 || cap > 0
    ensures |blocks| + |GrowEntries(blocks, cap, n)| == |Grow(blocks, cap, n)|
    decreases n
  {
    if n > 0 {
      GrowEntriesLength(blocks + [Min(n, cap)], cap, n - Min(n, cap));
    }
  }

  /** Entry i of the new blocks' entries is block |blocks| + i, from byte 0, with that block's rows. */
  lemma {:induction false} GrowEntryAt(blocks: seq<nat>, cap: nat, n: nat, i: nat)
    requires n == 0 || cap > 0
    requires i < |GrowEntries(blocks, cap, n)|
    ensures |blocks| + i < |Grow(blocks, cap, n)|
    ensures GrowEntries(blocks, cap, n)[i] == AppendEntry(|blocks| + i, 0, Grow(blocks, cap, n)[|blocks| + i])
    decreases n
  {
    var m := Min(n, cap);
    var rest := GrowEntries(blocks + [m], cap, n - m);
    assert GrowEntries(blocks, cap, n) == [AppendEntry(|blocks|, 0, m)] + rest;
    assert Grow(blocks, cap, n) == Grow(blocks + [m], cap, n - m);
    if i == 0 {
      GrowPrefix(blocks + [m], cap, n - m);
      assert (blocks + [m])[|blocks|] == m;
    } else {
      GrowEntryAt(blocks + [m], cap, n - m, i - 1);
    }
  }

  /** The entries of the new blocks start empty blocks and fill them to their final occupancy. */
  lemma GrowEntriesFresh(blocks: seq<nat>, f: seq<nat>, cap: nat, entrySize: nat, r: nat)
    requires r == 0 || cap > 0
    requires |f| == |blocks|
    ensures Fresh(GrowEntries(f, cap, r), blocks, Grow(f, cap, r), entrySize)
  {
    GrowEntriesShape(f, cap, r);
    var tail := GrowEntries(f, cap, r);
    forall i | 0 <= i < |tail|
      ensures tail[i].block < |Grow(f, cap, r)| && tail[i].baseptr == Before(blocks, tail[i].block) * entrySize &&
              Before(blocks, tail[i].block) + tail[i].count == Grow(f, cap, r)[tail[i].block]
    {
      assert tail[i].block == |blocks| + i;
    }
  }

  /** Build's entries fill exactly the entries their blocks gain. */
  lemma EntriesFresh(blocks: seq<nat>, cap: nat, entrySize: nat, n: nat)
    requires n == 0 || cap > 0
    ensures Fresh(Entries(blocks, cap, entrySize, n), blocks, Allocate(blocks, cap, n), entrySize)
  {
    var f := FilledLast(blocks, cap, n);
    var r := n - FirstAppend(blocks, cap, n);
    var tail := GrowEntries(f, cap, r);
    var a := Allocate(blocks, cap, n);
    GrowEntriesFresh(blocks, f, cap, entrySize, r);
    var es := Entries(blocks, cap, entrySize, n);
    if LastHasRoom(blocks, cap) {
      GrowPrefix(f, cap, r);
      assert es[1..] == tail;
      assert a[|blocks| - 1] == f[|blocks| - 1];
      forall i | 0 <= i < |es|
        ensures es[i].block < |a| && es[i].baseptr == Before(blocks, es[i].block) * entrySize &&
                Before(blocks, es[i].block) + es[i].count == a[es[i].block]
      {
        if i > 0 {
          assert es[i] == tail[i - 1];
        }
      }
    } else {
      assert es == tail;
    }
  }

  /** Build's entries go to increasing blocks. */
  lemma EntriesIncreasing(blocks: seq<nat>, cap: nat, entrySize: nat, n: nat)
    requires n == 0 || cap > 0
    ensures Increasing(Entries(blocks, cap, entrySize, n))
  {
    var f := FilledLast(blocks, cap, n);
    var r := n - FirstAppend(blocks, cap, n);
    var tail := GrowEntries(f, cap, r);
    GrowEntriesIncreasing(f, cap, r);
    if LastHasRoom(blocks, cap) {
      var head := AppendEntry(|blocks| - 1, blocks[|blocks| - 1] * entrySize, FirstAppend(blocks, cap, n));
      assert Entries(blocks, cap, entrySize, n) == [head] + tail;
      ConsIncreasing(head, tail);
    } else {
      assert Entries(blocks, cap, entrySize, n) == tail;
    }
  }

  /** The new blocks' entries go to increasing blocks, all past the existing ones. */
  lemma GrowEntriesIncreasing(blocks: seq<nat>, cap: nat, n: nat)
    requires n == 0 || cap > 0
    ensures Increasing(GrowEntries(blocks, cap, n))
    ensures forall j :: 0 <= j < |GrowEntries(blocks, cap, n)| ==> |blocks| <= GrowEntries(blocks, cap, n)[j].block
  {
    var es := GrowEntries(blocks, cap, n);
    forall j | 0 <= j < |es|
      ensures es[j].block == |blocks| + j
    {
      GrowEntryAt(blocks, cap, n, j);
    }
  }

  /** An entry before increasing entries with later blocks keeps them increasing. */
  lemma ConsIncreasing(e: AppendEntry, entries: seq<AppendEntry>)
    requires Increasing(entries)
    requires forall j :: 0 <= j < |entries| ==> e.block < entries[j].block
    ensures Increasing([e] + entries)
  {
    var es := [e] + entries;
    forall i, j | 0 <= i < j < |es|
      ensures es[i].block < es[j].block
    {
      assert es[j] == entries[j - 1];
      if i > 0 {
        assert es[i] == entries[i - 1];
      }
    }
  }

  lemma MulSplit(x: nat, j: nat, count: nat, size: nat)
    requires j < count
    ensures x * size <= x * size + j * size
    ensures x * size + j * size + size <= (x + count) * size
  {
    assert (x + count) * size == x * size + count * size;
    assert (j + 1) * size <= count * size;
  }

  lemma MulStrict(j: nat, j': nat, size: nat)
    requires j < j' && size > 0
    ensures j * size < j' * size
  {}

  /** With every entry below `bound`, so is every location. */
  lemma {:induction false} ExpandBlocksBelow(entries: seq<AppendEntry>, entrySize: nat, bound: nat)
    requires forall i :: 0 <= i < |entries| ==> entries[i].block < bound
    ensures forall k :: 0 <= k < Total(entries) ==> Expand(entries, entrySize)[k].block < bound
    decreases |entries|
  {
    if |entries| > 0 {
      ExpandBlocksBelow(entries[..|entries| - 1], entrySize, bound);
    }
  }

  /** Location k comes from the earlier entries, or else from the last entry at position k - Total(earlier). */
  lemma ExpandIndex(entries: seq<AppendEntry>, entrySize: nat, k: nat)
    requires |entries| > 0 && k < Total(entries)
    ensures var prefix := entries[..|entries| - 1];
            var t := Total(prefix);
            (k < t ==> Expand(entries, entrySize)[k] == Expand(prefix, entrySize)[k]) &&
            (t <= k ==> k - t < entries[|entries| - 1].count &&
                        Expand(entries, entrySize)[k] == EntryLocations(entries[|entries| - 1], entrySize)[k - t])
  {
  }

  /** Every location lies in the entries its block gained: after the old rows, within the new occupancy. */
  lemma {:induction false} ExpandFresh(entries: seq<AppendEntry>, before: seq<nat>, after: seq<nat>, entrySize: nat)
    requires Fresh(entries, before, after, entrySize)
    ensures forall k :: 0 <= k < Total(entries) ==>
              var p := Expand(entries, entrySize)[k];
              p.block < |after| && Before(before, p.block) * entrySize <= p.offset &&
              p.offset + entrySize <= after[p.block] * entrySize
    decreases |entries|
  {
    if |entries| > 0 {
      var prefix := entries[..|entries| - 1];
      var e := entries[|entries| - 1];
      var t := Total(prefix);
      ExpandFresh(prefix, before, after, entrySize);
      var x := Expand(entries, entrySize);
      forall k | 0 <= k < Total(entries)
        ensures x[k].block < |after| && Before(before, x[k].block) * entrySize <= x[k].offset &&
                x[k].offset + entrySize <= after[x[k].block] * entrySize
      {
        ExpandIndex(entries, entrySize, k);
        if t <= k {
          MulSplit(Before(before, e.block), k - t, e.count, entrySize);
        }
      }
    }
  }

  /** Consecutive locations in the same block are entry_size bytes apart. */
  lemma {:induction false} ExpandStride(entries: seq<AppendEntry>, entrySize: nat)
    requires Increasing(entries)
    ensures var x := Expand(entries, entrySize);
            forall k :: 0 <= k < |x| - 1 && x[k].block == x[k + 1].block ==> x[k + 1].offset == x[k].offset + entrySize
    decreases |entries|
  {
    if |entries| > 0 {
      var prefix := entries[..|entries| - 1];
      var e := entries[|entries| - 1];
      ExpandStride(prefix, entrySize);
      ExpandBlocksBelow(prefix, entrySize, e.block);
      var x := Expand(entries, entrySize);
      var t := Total(prefix);
      forall k | 0 <= k < |x| - 1
        ensures x[k].block == x[k + 1].block ==> x[k + 1].offset == x[k].offset + entrySize
      {
        ExpandIndex(entries, entrySize, k);
        ExpandIndex(entries, entrySize, k + 1);
        if k + 1 == t {
          assert x[k].block < e.block == x[k + 1].block;
        } else if t <= k {
          assert (k + 1 - t) * entrySize == (k - t) * entrySize + entrySize;
        }
      }
    }
  }

  /** With a positive entry size, no two locations coincide. */
  lemma {:induction false} ExpandDistinct(entries: seq<AppendEntry>, entrySize: nat)
    requires Increasing(entries) && entrySize > 0
    ensures var x := Expand(entries, entrySize);
            forall k, k' :: 0 <= k < k' < |x| ==> x[k] != x[k']
    decreases |entries|
  {
    if |entries| > 0 {
      var prefix := entries[..|entries| - 1];
      var e := entries[|entries| - 1];
      ExpandDistinct(prefix, entrySize);
      ExpandBlocksBelow(prefix, entrySize, e.block);
      var x := Expand(entries, entrySize);
      var t := Total(prefix);
      forall k, k' | 0 <= k < k' < |x|
        ensures x[k] != x[k']
      {
        ExpandIndex(entries, entrySize, k);
        ExpandIndex(entries, entrySize, k');
        if k < t <= k' {
          assert x[k].block < e.block == x[k'].block;
        } else if t <= k {
          MulStrict(k - t, k' - t, entrySize);
        }
      }
    }
  }

  /**
    Build(n) hands out n locations, each in an entry its block gained:
    at or after the block's old occupancy, entirely inside its new one.
   */
  lemma LocationsFresh(blocks: seq<nat>, cap: nat, entrySize: nat, n: nat)
    requires n == 0 || cap > 0
    ensures var x := Locations(blocks, cap, entrySize, n);
            var a := Allocate(blocks, cap, n);
            |x| == n &&
            forall k :: 0 <= k < n ==>
              x[k].block < |a| && Before(blocks, x[k].block) * entrySize <= x[k].offset &&
              x[k].offset + entrySize <= a[x[k].block] * entrySize
  {
    EntriesFresh(blocks, cap, entrySize, n);
    ExpandFresh(Entries(blocks, cap, entrySize, n), blocks, Allocate(blocks, cap, n), entrySize);
  }

  /**
    The first location is the last block's first free entry when that block
    has room, else the start of a new block; each next location in the same
    block is entry_size bytes further.
   */
  lemma LocationsStrided(blocks: seq<nat>, cap: nat, entrySize: nat, n: nat)
    requires n == 0 || cap > 0
    ensures var x := Locations(blocks, cap, entrySize, n);
            (n > 0 ==> x[0] == if LastHasRoom(blocks, cap)
                               then RowPointer(|blocks| - 1, blocks[|blocks| - 1] * entrySize)
                               else RowPointer(|blocks|, 0)) &&
            forall k :: 0 <= k < n - 1 && x[k].block == x[k + 1].block ==> x[k + 1].offset == x[k].offset + entrySize
  {
    EntriesIncreasing(blocks, cap, entrySize, n);
    var es := Entries(blocks, cap, entrySize, n);
    ExpandStride(es, entrySize);
    if n > 0 {
      ExpandFirst(es, entrySize);
      if LastHasRoom(blocks, cap) {
        assert es[0].count == FirstAppend(blocks, cap, n) > 0;
      } else {
        var f := FilledLast(blocks, cap, n);
        GrowEntriesShape(f, cap, n);
        assert es == GrowEntries(f, cap, n);
      }
    }
  }

  /** The first location is the start of the first entry that has rows. */
  lemma {:induction false} ExpandFirst(entries: seq<AppendEntry>, entrySize: nat)
    requires |entries| > 0 && entries[0].count > 0
    ensures Total(entries) > 0 && Expand(entries, entrySize)[0] == RowPointer(entries[0].block, entries[0].baseptr)
    decreases |entries|
  {
    if |entries| == 1 {
      assert entries[..0] == [];
    } else {
      var prefix := entries[..|entries| - 1];
      ExpandFirst(prefix, entrySize);
      assert Expand(entries, entrySize)[0] == Expand(prefix, entrySize)[0];
    }
  }

  /** With a positive entry size, Build(n) never hands out one location twice. */
  lemma LocationsDistinct(blocks: seq<nat>, cap: nat, entrySize: nat, n: nat)
    requires (n == 0 || cap > 0) && entrySize > 0
    ensures var x := Locations(blocks, cap, entrySize, n);
            forall k, k' :: 0 <= k < k' < |x| ==> x[k] != x[k']
  {
    EntriesIncreasing(blocks, cap, entrySize, n);
    ExpandDistinct(Entries(blocks, cap, entrySize, n), entrySize);
    assert Locations(blocks, cap, entrySize, n) == Expand(Entries(blocks, cap, entrySize, n), entrySize);
  }
}
