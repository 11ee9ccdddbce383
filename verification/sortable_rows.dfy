/**
  SerializeVectorSortable: each selected row writes its key at the address
  in key_locations[i] and advances that address past it. The method is
  specified by the writes it performs; the lemmas read the keys back and
  show that memcmp on two key slots orders the rows' values.
 */
module SortableRows {
  import opened Types
  import opened ByteOrder
  import opened KeyEncoding
  import opened RowMemory

  /** The key bytes of row i. */
  function RowKey(vdata: VectorData, c: CType, sel: seq<nat>, i: nat, hasNull: bool, invert: bool, littleEndian: bool)
    : (key: seq<bv8>)
    requires Selects(vdata, sel, i + 1) && Orderable(c) && Fits(c, vdata.data[SourceIndex(vdata, sel, i)])
    ensures |key| == SizeOf(c) + (if hasNull then 1 else 0)
  {
    var src := SourceIndex(vdata, sel, i);
    SortableRowBytes(c, vdata.data[src], hasNull, vdata.validity[src], invert, littleEndian).value
  }

  predicate AllFitType(vdata: VectorData, c: CType) {
    forall k :: 0 <= k < |vdata.data| ==> Fits(c, vdata.data[k])
  }

  /** The writes of the first `count` rows: row i stores its key at starts[i]. */
  function SortableWrites(vdata: VectorData, c: CType, sel: seq<nat>, count: nat, hasNull: bool, invert: bool,
                          littleEndian: bool, starts: seq<nat>): (ws: seq<Write>)
    requires Selects(vdata, sel, count) && count <= |starts| && Orderable(c) && AllFitType(vdata, c)
    ensures |ws| == count
    ensures forall i :: 0 <= i < count ==>
              ws[i] == Put(starts[i], RowKey(vdata, c, sel, i, hasNull, invert, littleEndian))
  {
    seq(count, i requires 0 <= i < count => Put(starts[i], RowKey(vdata, c, sel, i, hasNull, invert, littleEndian)))
  }

  /** The writes of one more row end with that row's store. */
  lemma SortableWritesSnoc(vdata: VectorData, c: CType, sel: seq<nat>, i: nat, hasNull: bool, invert: bool,
                           littleEndian: bool, starts: seq<nat>)
    requires Selects(vdata, sel, i + 1) && i < |starts| && Orderable(c) && AllFitType(vdata, c)
    ensures SortableWrites(vdata, c, sel, i + 1, hasNull, invert, littleEndian, starts) ==
            SortableWrites(vdata, c, sel, i, hasNull, invert, littleEndian, starts) +
            [Put(starts[i], RowKey(vdata, c, sel, i, hasNull, invert, littleEndian))]
  {
    var ws := SortableWrites(vdata, c, sel, i, hasNull, invert, littleEndian, starts);
    var ws1 := SortableWrites(vdata, c, sel, i + 1, hasNull, invert, littleEndian, starts);
    var w := Put(starts[i], RowKey(vdata, c, sel, i, hasNull, invert, littleEndian));
    assert |ws1| == |ws + [w]|;
    forall k | 0 <= k < |ws1|
      ensures ws1[k] == (ws + [w])[k]
    {
      if k < i {
        assert ws1[k] == ws[k];
      }
    }
  }

  /** The prefixed key a row writes is the validity byte followed by EncodeData's bytes. */
  lemma RowKeySplit(vdata: VectorData, c: CType, sel: seq<nat>, i: nat, hasNull: bool, invert: bool, littleEndian: bool)
    requires Selects(vdata, sel, i + 1) && Orderable(c) && AllFitType(vdata, c)
    ensures var src := SourceIndex(vdata, sel, i);
            RowKey(vdata, c, sel, i, hasNull, invert, littleEndian) ==
              (if hasNull then [ValidityByte(vdata.validity[src], invert)] else []) +
              EncodeData(c, vdata.data[src], littleEndian).value
  {
    var src := SourceIndex(vdata, sel, i);
    var e := EncodeData(c, vdata.data[src], littleEndian);
    assert e.Ok?;
  }

  /** Each row's key slot lies inside memory. */
  predicate SlotsFit(starts: seq<nat>, count: nat, width: nat, size: nat) {
    count <= |starts| && forall i :: 0 <= i < count ==> starts[i] + width <= size
  }

  /**
    The state after the first `done` rows: memory holds their keys, their
    key locations moved past the key, the other locations are as they were.
   */
  predicate KeysSerialized(mem: seq<bv8>, locs: seq<nat>, m0: seq<bv8>, starts: seq<nat>, vdata: VectorData, c: CType,
                           sel: seq<nat>, done: nat, hasNull: bool, invert: bool, littleEndian: bool)
  {
    Selects(vdata, sel, done) && done <= |starts| && Orderable(c) && AllFitType(vdata, c) && |locs| == |starts| &&
    AllFit(SortableWrites(vdata, c, sel, done, hasNull, invert, littleEndian, starts), |m0|) &&
    mem == ApplyWrites(m0, SortableWrites(vdata, c, sel, done, hasNull, invert, littleEndian, starts)) &&
    (forall k :: 0 <= k < done ==> locs[k] == starts[k] + SizeOf(c) + (if hasNull then 1 else 0)) &&
    (forall k :: done <= k < |locs| ==> locs[k] == starts[k])
  }

  /**
    What the template leaves: for an orderable type, Done and the keys of
    all `count` rows; for no rows, nothing; otherwise EncodeData's error
    for the first row, after that row's validity byte went out (when the
    column has NULLs) and its location moved past it.
   */
  predicate KeysOutcome(mem: seq<bv8>, locs: seq<nat>, m0: seq<bv8>, starts: seq<nat>, out: Outcome, vdata: VectorData,
                        c: CType, sel: seq<nat>, count: nat, hasNull: bool, invert: bool, littleEndian: bool)
    requires Selects(vdata, sel, count) && count <= |starts| && c != StringT
  {
    if Orderable(c) then
      out == Done && KeysSerialized(mem, locs, m0, starts, vdata, c, sel, count, hasNull, invert, littleEndian)
    else if count == 0 then
      out == Done && mem == m0 && locs == starts
    else
      var src := SourceIndex(vdata, sel, 0);
      Fits(c, vdata.data[src]) &&
      out == Failed(EncodeData(c, vdata.data[src], littleEndian).error) &&
      if hasNull then
        starts[0] + 1 <= |m0| &&
        mem == ApplyWrite(m0, Put(starts[0], [ValidityByte(vdata.validity[src], invert)])) &&
        locs == starts[0 := starts[0] + 1]
      else
        mem == m0 && locs == starts
  }

  /** One loop iteration, stated against the state before and after it. */
  method SerializeKeyStep(mem: array<bv8>, locs: array<nat>, vdata: VectorData, c: CType, sel: seq<nat>, count: nat,
                          hasNull: bool, invert: bool, littleEndian: bool, i: nat, ghost m0: seq<bv8>, ghost starts: seq<nat>)
    requires Selects(vdata, sel, count) && i < count <= locs.Length
    requires SlotsFit(starts, count, SizeOf(c) + (if hasNull then 1 else 0), mem.Length)
    requires |m0| == mem.Length && mem as object != locs
    requires KeysSerialized(mem[..], locs[..], m0, starts, vdata, c, sel, i, hasNull, invert, littleEndian)
    modifies mem, locs
    ensures KeysSerialized(mem[..], locs[..], m0, starts, vdata, c, sel, i + 1, hasNull, invert, littleEndian)
  {
    assert Selects(vdata, sel, i + 1);
    ghost var before, locsBefore := mem[..], locs[..];
    SerializeRow(mem, locs, vdata, c, sel, i, hasNull, invert, littleEndian);
    KeysSerializedStep(before, locsBefore, mem[..], locs[..], m0, starts, vdata, c, sel, i, hasNull, invert, littleEndian);
  }

  /** Storing row i's key and moving its location past it extends the serialised prefix by one row. */
  lemma KeysSerializedStep(mem: seq<bv8>, locs: seq<nat>, mem': seq<bv8>, locs': seq<nat>, m0: seq<bv8>, starts: seq<nat>,
                           vdata: VectorData, c: CType, sel: seq<nat>, i: nat, hasNull: bool, invert: bool, littleEndian: bool)
    requires Selects(vdata, sel, i + 1) && i < |starts| && starts[i] + SizeOf(c) + (if hasNull then 1 else 0) <= |m0|
    requires KeysSerialized(mem, locs, m0, starts, vdata, c, sel, i, hasNull, invert, littleEndian)
    requires mem' == ApplyWrite(mem, Put(starts[i], RowKey(vdata, c, sel, i, hasNull, invert, littleEndian)))
    requires locs' == locs[i := starts[i] + SizeOf(c) + (if hasNull then 1 else 0)]
    ensures KeysSerialized(mem', locs', m0, starts, vdata, c, sel, i + 1, hasNull, invert, littleEndian)
  {
    SortableWritesSnoc(vdata, c, sel, i, hasNull, invert, littleEndian, starts);
    ApplyWritesSnoc(m0, SortableWrites(vdata, c, sel, i, hasNull, invert, littleEndian, starts),
                    Put(starts[i], RowKey(vdata, c, sel, i, hasNull, invert, littleEndian)));
  }

  /** The loop of TemplatedSerializeVectorSortable<T> for a type whose EncodeData does not throw. */
  method SerializeKeys(mem: array<bv8>, locs: array<nat>, vdata: VectorData, c: CType,
                       sel: seq<nat>, count: nat, hasNull: bool, invert: bool, littleEndian: bool)
    requires Selects(vdata, sel, count) && count <= locs.Length && AllFitType(vdata, c) && Orderable(c)
    requires SlotsFit(locs[..], count, SizeOf(c) + (if hasNull then 1 else 0), mem.Length) && mem as object != locs
    modifies mem, locs
    ensures KeysSerialized(mem[..], locs[..], old(mem[..]), old(locs[..]), vdata, c, sel, count, hasNull, invert, littleEndian)
  {
    ghost var starts := locs[..];
    ghost var m0 := mem[..];
    assert KeysSerialized(m0, starts, m0, starts, vdata, c, sel, 0, hasNull, invert, littleEndian);
    var i := 0;
    while i < count
      invariant 0 <= i <= count
      invariant KeysSerialized(mem[..], locs[..], m0, starts, vdata, c, sel, i, hasNull, invert, littleEndian)
    {
      SerializeKeyStep(mem, locs, vdata, c, sel, count, hasNull, invert, littleEndian, i, m0, starts);
      i := i + 1;
    }
  }

  /**
    TemplatedSerializeVectorSortable<T>: for each selected row, the validity
    byte (when the column has NULLs) and then EncodeData<T> of the value go
    to key_locations[i], which moves past them. hugeint_t throws in the
    first row's EncodeData, after that row's validity byte went out; the
    model takes that one iteration apart from the loop.
   */
  method TemplatedSerializeVectorSortable(mem: array<bv8>, locs: array<nat>, vdata: VectorData, c: CType,
                                          sel: seq<nat>, count: nat, hasNull: bool, invert: bool, littleEndian: bool)
    returns (out: Outcome)
    requires Selects(vdata, sel, count) && count <= locs.Length && AllFitType(vdata, c) && c != StringT
    requires SlotsFit(locs[..], count, SizeOf(c) + (if hasNull then 1 else 0), mem.Length) && mem as object != locs
    modifies mem, locs
    ensures KeysOutcome(mem[..], locs[..], old(mem[..]), old(locs[..]), out, vdata, c, sel, count, hasNull, invert, littleEndian)
  {
    if Orderable(c) {
      SerializeKeys(mem, locs, vdata, c, sel, count, hasNull, invert, littleEndian);
      return Done;
    }
    if count == 0 {
      return Done;
    }
    var src := vdata.sel[sel[0]];
    if hasNull {
      WriteBytes(mem, locs[0], [ValidityByte(vdata.validity[src], invert)]);
      locs[0] := locs[0] + 1;
    }
    return Failed(EncodeData(c, vdata.data[src], littleEndian).error);
  }

  /**
    SerializeVectorSortable: a type without a sortable template throws
    before anything is written; the rest go to the template of their C++
    type.
   */
  method SerializeVectorSortable(mem: array<bv8>, locs: array<nat>, vdata: VectorData, t: PhysicalType,
                                 sel: seq<nat>, count: nat, hasNull: bool, invert: bool, littleEndian: bool)
    returns (out: Outcome)
    requires Selects(vdata, sel, count) && count <= locs.Length && AllHaveType(vdata, t) && mem as object != locs
    requires TypeIsConstantSize(t) ==>
               SlotsFit(locs[..], count, TypeIdSize(t) + (if hasNull then 1 else 0), mem.Length)
    modifies mem, locs
    ensures SortableTemplate(t).Err? ==> out == Failed(NotImplemented("FIXME: unimplemented deserialize")) && unchanged(mem, locs)
    ensures SortableTemplate(t).Ok? ==>
              KeysOutcome(mem[..], locs[..], old(mem[..]), old(locs[..]), out, vdata, SortableTemplate(t).value, sel, count,
                          hasNull, invert, littleEndian)
    ensures t == INT128 && count > 0 ==> out == Failed(NotImplemented("hugeint_t encoding not implemented"))
  {
    SortableTemplateSound(t, Byte(0));
    if SortableTemplate(t).Err? {
      return Failed(SortableTemplate(t).error);
    }
    var c := SortableTemplate(t).value;
    assert AllFitType(vdata, c) by {
      forall k | 0 <= k < |vdata.data|
        ensures Fits(c, vdata.data[k])
      {
        SortableTemplateSound(t, vdata.data[k]);
      }
    }
    out := TemplatedSerializeVectorSortable(mem, locs, vdata, c, sel, count, hasNull, invert, littleEndian);
  }

  /** The validity byte (when there is one) at key_locations[i], then the key right after it; the location moves past both. */
  method StorePrefixedKey(mem: array<bv8>, locs: array<nat>, prefix: seq<bv8>, key: seq<bv8>, i: nat)
    requires i < locs.Length && locs[i] + |prefix| + |key| <= mem.Length && mem as object != locs
    modifies mem, locs
    ensures mem[..] == ApplyWrite(old(mem[..]), Put(old(locs[i]), prefix + key))
    ensures locs[..] == old(locs[..])[i := old(locs[i]) + |prefix| + |key|]
  {
    ghost var m0 := mem[..];
    var at := locs[i];
    WriteBytes(mem, at, prefix);
    locs[i] := at + |prefix|;
    WriteBytes(mem, at + |prefix|, key);
    locs[i] := locs[i] + |key|;
    ApplyPutAdjacent(m0, at, prefix, key);
  }

  /** One iteration of the loop: the validity byte, then the encoded value right after it. */
  method SerializeRow(mem: array<bv8>, locs: array<nat>, vdata: VectorData, c: CType, sel: seq<nat>, i: nat,
                      hasNull: bool, invert: bool, littleEndian: bool)
    requires Selects(vdata, sel, i + 1) && i < locs.Length && Orderable(c) && AllFitType(vdata, c)
    requires locs[i] + SizeOf(c) + (if hasNull then 1 else 0) <= mem.Length && mem as object != locs
    modifies mem, locs
    ensures mem[..] == ApplyWrite(old(mem[..]), Put(old(locs[i]), RowKey(vdata, c, sel, i, hasNull, invert, littleEndian)))
    ensures locs[..] == old(locs[..])[i := old(locs[i]) + SizeOf(c) + (if hasNull then 1 else 0)]
  {
    var src := vdata.sel[sel[i]];
    var prefix := if hasNull then [ValidityByte(vdata.validity[src], invert)] else [];
    var key := EncodeData(c, vdata.data[src], littleEndian).value;
    RowKeySplit(vdata, c, sel, i, hasNull, invert, littleEndian);
    StorePrefixedKey(mem, locs, prefix, key, i);
  }

  /** After serialisation, row i's slot holds the validity prefix (if any) and the big-endian key of its value. */
  lemma {:induction false} SortableSlotReadBack(m0: seq<bv8>, vdata: VectorData, c: CType, sel: seq<nat>, count: nat, hasNull: bool,
                             invert: bool, littleEndian: bool, starts: seq<nat>, i: nat)
    requires Selects(vdata, sel, count) && count <= |starts| && Orderable(c) && AllFitType(vdata, c)
    requires AllFit(SortableWrites(vdata, c, sel, count, hasNull, invert, littleEndian, starts), |m0|)
    requires Disjoint(SortableWrites(vdata, c, sel, count, hasNull, invert, littleEndian, starts))
    requires i < count
    ensures var m := ApplyWrites(m0, SortableWrites(vdata, c, sel, count, hasNull, invert, littleEndian, starts));
            var src := SourceIndex(vdata, sel, i);
            starts[i] + SizeOf(c) + (if hasNull then 1 else 0) <= |m| &&
            m[starts[i]..starts[i] + SizeOf(c) + (if hasNull then 1 else 0)] ==
              (if hasNull then [if invert then 0 else 1] else []) + SortKey(c, vdata.data[src])
  {
    var ws := SortableWrites(vdata, c, sel, count, hasNull, invert, littleEndian, starts);
    var src := SourceIndex(vdata, sel, i);
    ApplyWritesReadsPut(m0, ws, i);
    EncodeDataIsSortKey(c, vdata.data[src], littleEndian);
  }

  /**
    The purpose of the sortable layout: after serialisation, memcmp on the
    slots of two rows orders them as their values are ordered (NaN aside).
    The validity prefix is the same byte for every row, so it never decides.
   */
  lemma {:induction false} SortableSlotsOrdered(m0: seq<bv8>, vdata: VectorData, c: CType, sel: seq<nat>, count: nat, hasNull: bool,
                             invert: bool, littleEndian: bool, starts: seq<nat>, i: nat, j: nat)
    requires Selects(vdata, sel, count) && count <= |starts| && Orderable(c) && AllFitType(vdata, c)
    requires AllFit(SortableWrites(vdata, c, sel, count, hasNull, invert, littleEndian, starts), |m0|)
    requires Disjoint(SortableWrites(vdata, c, sel, count, hasNull, invert, littleEndian, starts))
    requires i < count && j < count
    requires NotNaN(c, vdata.data[SourceIndex(vdata, sel, i)]) && NotNaN(c, vdata.data[SourceIndex(vdata, sel, j)])
    ensures var m := ApplyWrites(m0, SortableWrites(vdata, c, sel, count, hasNull, invert, littleEndian, starts));
            var width := SizeOf(c) + (if hasNull then 1 else 0);
            starts[i] + width <= |m| && starts[j] + width <= |m| &&
            (MemcmpLess(m[starts[i]..starts[i] + width], m[starts[j]..starts[j] + width]) <==>
               ValueLess(c, vdata.data[SourceIndex(vdata, sel, i)], vdata.data[SourceIndex(vdata, sel, j)]))
  {
    var a, b := vdata.data[SourceIndex(vdata, sel, i)], vdata.data[SourceIndex(vdata, sel, j)];
    SortableSlotReadBack(m0, vdata, c, sel, count, hasNull, invert, littleEndian, starts, i);
    SortableSlotReadBack(m0, vdata, c, sel, count, hasNull, invert, littleEndian, starts, j);
    var p: seq<bv8> := if hasNull then [if invert then 0 else 1] else [];
    MemcmpLessCommonPrefix(p, SortKey(c, a), SortKey(c, b));
    SortKeyOrderBigEndian(c, a, b);
  }

  /**
    SerializeIndices: row i's slot receives start + i, computed in idx_t
    (64-bit, wrapping) arithmetic and stored natively. The addresses are
    not advanced.
   */
  function IndexValue(start: bv64, i: nat): bv64 {
    start + ((i % UINT64_RANGE) as bv64)
  }

  function IndexWrites(start: bv64, count: nat, littleEndian: bool, starts: seq<nat>): (ws: seq<Write>)
    requires count <= |starts|
    ensures |ws| == count
    ensures forall i :: 0 <= i < count ==> ws[i] == Put(starts[i], Host64(IndexValue(start, i), littleEndian))
  {
    seq(count, i requires 0 <= i < count => Put(starts[i], Host64(IndexValue(start, i), littleEndian)))
  }

  lemma IndexWritesSnoc(start: bv64, i: nat, littleEndian: bool, starts: seq<nat>)
    requires i < |starts|
    ensures IndexWrites(start, i + 1, littleEndian, starts) ==
            IndexWrites(start, i, littleEndian, starts) + [Put(starts[i], Host64(IndexValue(start, i), littleEndian))]
  {
    var ws := IndexWrites(start, i, littleEndian, starts);
    var ws1 := IndexWrites(start, i + 1, littleEndian, starts);
    var w := Put(starts[i], Host64(IndexValue(start, i), littleEndian));
    forall k | 0 <= k < |ws1|
      ensures ws1[k] == (ws + [w])[k]
    {
      if k < i {
        assert ws1[k] == ws[k];
      }
    }
  }

  method SerializeIndices(mem: array<bv8>, locs: array<nat>, start: bv64, count: nat, littleEndian: bool)
    requires count <= locs.Length && SlotsFit(locs[..], count, 8, mem.Length) && mem as object != locs
    modifies mem
    ensures AllFit(IndexWrites(start, count, littleEndian, locs[..]), mem.Length)
    ensures mem[..] == ApplyWrites(old(mem[..]), IndexWrites(start, count, littleEndian, locs[..]))
  {
    ghost var m0 := mem[..];
    ghost var starts := locs[..];
    var i := 0;
    while i < count
      invariant 0 <= i <= count
      invariant AllFit(IndexWrites(start, i, littleEndian, starts), |m0|)
      invariant mem[..] == ApplyWrites(m0, IndexWrites(start, i, littleEndian, starts))
    {
      var bytes := Host64(IndexValue(start, i), littleEndian);
      ghost var before := mem[..];
      WriteBytes(mem, locs[i], bytes);
      IndexWritesSnoc(start, i, littleEndian, starts);
      ApplyWritesSnoc(m0, IndexWrites(start, i, littleEndian, starts), Put(starts[i], bytes));
      i := i + 1;
    }
  }

  /** Loading an idx_t from row i's slot yields start + i in idx_t arithmetic. */
  lemma {:induction false} IndexReadBack(m0: seq<bv8>, start: bv64, count: nat, littleEndian: bool, starts: seq<nat>, i: nat)
    requires count <= |starts| && AllFit(IndexWrites(start, count, littleEndian, starts), |m0|)
    requires Disjoint(IndexWrites(start, count, littleEndian, starts)) && i < count
    ensures var m := ApplyWrites(m0, IndexWrites(start, count, littleEndian, starts));
            starts[i] + 8 <= |m| &&
            LoadHost64(m[starts[i]..starts[i] + 8], littleEndian) == IndexValue(start, i)
  {
    ApplyWritesReadsPut(m0, IndexWrites(start, count, littleEndian, starts), i);
    LoadHost64Store(IndexValue(start, i), littleEndian);
  }
}
