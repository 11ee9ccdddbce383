/**
  The row layout: SerializeVectorData stores each value natively at
  key_locations[i] (a string as its 32-bit size followed by its bytes) and
  clears the column's bit in the row's validity mask for NULL rows;
  DeserializeIntoVectorData and SkipOverType walk the same layout back.
 */
module RowLayout {
  import opened Types
  import opened ByteOrder
  import opened RowMemory

  /** string_t::PREFIX_LENGTH: the bytes of the size stored before a string's characters. */
  const PREFIX_LENGTH: nat := 4

  /** The types the row-layout switches handle: the constant-size ones and VARCHAR. */
  predicate RowSerializable(t: PhysicalType) {
    TypeIsConstantSize(t) || t == VARCHAR
  }

  // ---------------------------------------------------------------------------
  // Values in memory

  /** The object representation Store<T> writes for a fixed-width value. */
  function StoreFixed(v: Value, littleEndian: bool): seq<bv8>
    requires !v.Str?
  {
    match v
    case Byte(b) => [b]
    case Half(h) => Host16(h, littleEndian)
    case Word(w) => Host32(w, littleEndian)
    case Long(l) => Host64(l, littleEndian)
    case Opaque16(raw) => raw
  }

  /** Load<T> of sizeof(T) bytes for a constant-size type. */
  function LoadFixed(bytes: seq<bv8>, t: PhysicalType, littleEndian: bool): Value
    requires TypeIsConstantSize(t) && |bytes| == TypeIdSize(t)
  {
    match TypeIdSize(t)
    case 1 => Byte(bytes[0])
    case 2 => Half(LoadHost16(bytes, littleEndian))
    case 4 => Word(LoadHost32(bytes, littleEndian))
    case 8 => Long(LoadHost64(bytes, littleEndian))
    case 16 => Opaque16(bytes)
  }

  /** Load<T> reads back what Store<T> wrote, and Store<T> writes sizeof(T) bytes. */
  lemma LoadStoreFixed(v: Value, t: PhysicalType, littleEndian: bool)
    requires TypeIsConstantSize(t) && HasType(v, t)
    ensures |StoreFixed(v, littleEndian)| == TypeIdSize(t)
    ensures LoadFixed(StoreFixed(v, littleEndian), t, littleEndian) == v
  {
    match v
    case Byte(b) => {}
    case Half(h) => LoadHost16Store(h, littleEndian);
    case Word(w) => LoadHost32Store(w, littleEndian);
    case Long(l) => LoadHost64Store(l, littleEndian);
    case Opaque16(raw) => {}
  }

  /** A string's entry: Store<uint32_t> of its size field, then its bytes (memcpy). */
  function StoreString(size: bv32, chars: seq<bv8>, littleEndian: bool): (r: seq<bv8>)
    ensures |r| == PREFIX_LENGTH + |chars|
  {
    Host32(size, littleEndian) + chars
  }

  /** The number of bytes a value occupies in a row. */
  function StoredWidth(v: Value): nat {
    match v
    case Byte(_) => 1
    case Half(_) => 2
    case Word(_) => 4
    case Long(_) => 8
    case Opaque16(raw) => |raw|
    case Str(_, chars) => PREFIX_LENGTH + |chars|
  }

  /** The bytes one row of the column occupies. */
  function StoreValue(v: Value, littleEndian: bool): (r: seq<bv8>)
    ensures |r| == StoredWidth(v)
  {
    if v.Str? then StoreString(v.size, v.chars, littleEndian) else StoreFixed(v, littleEndian)
  }

  /** The 32-bit size stored at `at`. */
  function StringLength(m: seq<bv8>, at: nat, littleEndian: bool): nat
    requires at + PREFIX_LENGTH <= |m|
  {
    Unsigned32(LoadHost32(m[at..at + PREFIX_LENGTH], littleEndian))
  }

  /** A value of type t can be read at `at`: its bytes (for a string: its size and its bytes) lie in memory. */
  predicate Readable(m: seq<bv8>, at: nat, t: PhysicalType, littleEndian: bool) {
    if TypeIsConstantSize(t) then at + TypeIdSize(t) <= |m|
    else t == VARCHAR && at + PREFIX_LENGTH <= |m| && at + PREFIX_LENGTH + StringLength(m, at, littleEndian) <= |m|
  }

  /** How far the readers advance past a value of type t at `at`. */
  function ReadWidth(m: seq<bv8>, at: nat, t: PhysicalType, littleEndian: bool): (w: nat)
    requires Readable(m, at, t, littleEndian)
    ensures at + w <= |m|
  {
    if TypeIsConstantSize(t) then TypeIdSize(t) else PREFIX_LENGTH + StringLength(m, at, littleEndian)
  }

  /** The value the deserialiser reads at `at`. */
  function ReadValue(m: seq<bv8>, at: nat, t: PhysicalType, littleEndian: bool): Value
    requires Readable(m, at, t, littleEndian)
  {
    if TypeIsConstantSize(t) then LoadFixed(m[at..at + TypeIdSize(t)], t, littleEndian)
    else Str(LoadHost32(m[at..at + PREFIX_LENGTH], littleEndian),
             m[at + PREFIX_LENGTH..at + PREFIX_LENGTH + StringLength(m, at, littleEndian)])
  }

  /** A stored string's size reads back as its length, and its bytes follow. */
  lemma ReadStoredString(m: seq<bv8>, at: nat, size: bv32, chars: seq<bv8>, littleEndian: bool)
    requires Unsigned32(size) == |chars|
    requires at + PREFIX_LENGTH + |chars| <= |m| && m[at..at + PREFIX_LENGTH + |chars|] == StoreString(size, chars, littleEndian)
    ensures at + PREFIX_LENGTH <= |m| && LoadHost32(m[at..at + PREFIX_LENGTH], littleEndian) == size
    ensures StringLength(m, at, littleEndian) == |chars|
    ensures m[at + PREFIX_LENGTH..at + PREFIX_LENGTH + |chars|] == chars
  {
    SliceSplit(m, at, Host32(size, littleEndian), chars);
    LoadHost32Store(size, littleEndian);
  }

  /** The reader at `at` finds `v` and steps over exactly the bytes `v` occupies. */
  predicate ReadsBack(m: seq<bv8>, at: nat, v: Value, t: PhysicalType, littleEndian: bool) {
    Readable(m, at, t, littleEndian) &&
    ReadWidth(m, at, t, littleEndian) == StoredWidth(v) &&
    ReadValue(m, at, t, littleEndian) == v
  }

  /** Reading a stored value gives it back and steps over exactly the bytes that were stored. */
  lemma ReadStoredValue(m: seq<bv8>, at: nat, v: Value, t: PhysicalType, littleEndian: bool)
    requires RowSerializable(t) && HasType(v, t) && StringSized(v)
    requires at + StoredWidth(v) <= |m| && m[at..at + StoredWidth(v)] == StoreValue(v, littleEndian)
    ensures ReadsBack(m, at, v, t, littleEndian)
  {
    if TypeIsConstantSize(t) {
      LoadStoreFixed(v, t, littleEndian);
      ReadStoredFixed(m, at, v, t, littleEndian);
    } else {
      ReadStoredString(m, at, v.size, v.chars, littleEndian);
    }
  }

  lemma ReadStoredFixed(m: seq<bv8>, at: nat, v: Value, t: PhysicalType, littleEndian: bool)
    requires TypeIsConstantSize(t) && HasType(v, t)
    requires at + TypeIdSize(t) <= |m| && m[at..at + TypeIdSize(t)] == StoreFixed(v, littleEndian)
    ensures ReadValue(m, at, t, littleEndian) == v
  {
    LoadStoreFixed(v, t, littleEndian);
  }

  // ---------------------------------------------------------------------------
  // SerializeVectorData

  /**
    The position of row i's value: vdata.sel[sel[i]] for the templated
    types, but vdata.sel[i] for VARCHAR, whose loop does not go through sel.
   */
  function RowSource(vdata: VectorData, sel: seq<nat>, t: PhysicalType, i: nat): nat
    requires t == VARCHAR ==> i < |vdata.sel|
    requires t != VARCHAR ==> i < |sel| && sel[i] < |vdata.sel|
  {
    if t == VARCHAR then vdata.sel[i] else vdata.sel[sel[i]]
  }

  /** Row i names a value that exists. */
  predicate RowInRange(vdata: VectorData, sel: seq<nat>, t: PhysicalType, i: nat) {
    (t == VARCHAR ==> i < |vdata.sel|) &&
    (t != VARCHAR ==> i < |sel| && sel[i] < |vdata.sel|) &&
    RowSource(vdata, sel, t, i) < |vdata.data|
  }

  /** The first `count` rows name values that exist, and validity entries when a mask is written. */
  predicate RowSelects(vdata: VectorData, sel: seq<nat>, t: PhysicalType, count: nat, masks: Option<seq<nat>>) {
    (masks.Some? ==> count <= |masks.value| && count <= |vdata.validity|) &&
    forall i :: 0 <= i < count ==> RowInRange(vdata, sel, t, i)
  }

  /** The value row i stores. */
  function RowValue(vdata: VectorData, sel: seq<nat>, t: PhysicalType, i: nat): Value
    requires RowInRange(vdata, sel, t, i)
  {
    vdata.data[RowSource(vdata, sel, t, i)]
  }

  /** Where row i's validity bit lives: byte col / 8 of its mask, bit col % 8. */
  function MaskByte(masks: seq<nat>, i: nat, col: nat): nat
    requires i < |masks|
  {
    masks[i] + col / 8
  }

  /**
    The mask update of row i: clear the column's bit when the row is NULL.
    The source asks RowIsValid(i), the row's position in the loop, not its
    source position.
   */
  function MaskWrite(vdata: VectorData, masks: Option<seq<nat>>, col: nat, i: nat): (w: Write)
    requires masks.Some? ==> i < |masks.value| && i < |vdata.validity|
    ensures w.ClearBit? ==> w.bit < 8
  {
    if masks.Some? && !vdata.validity[i] then ClearBit(MaskByte(masks.value, i, col), col % 8) else NoWrite()
  }

  /** The writes of the first `count` rows: row i's store, then its mask update. */
  function RowWrites(vdata: VectorData, sel: seq<nat>, t: PhysicalType, count: nat, col: nat, masks: Option<seq<nat>>,
                     littleEndian: bool, starts: seq<nat>): (ws: seq<Write>)
    requires RowSerializable(t) && RowSelects(vdata, sel, t, count, masks) && count <= |starts|
    ensures |ws| == 2 * count
    decreases count
  {
    if count == 0 then []
    else
      var i := count - 1;
      RowWrites(vdata, sel, t, i, col, masks, littleEndian, starts) +
      [Put(starts[i], StoreValue(RowValue(vdata, sel, t, i), littleEndian)),
       MaskWrite(vdata, masks, col, i)]
  }

  /** Row i's store is write 2i and its mask update write 2i + 1. */
  lemma {:induction false} RowWritesAt(vdata: VectorData, sel: seq<nat>, t: PhysicalType, count: nat, col: nat,
                                       masks: Option<seq<nat>>, littleEndian: bool, starts: seq<nat>, i: nat)
    requires RowSerializable(t) && RowSelects(vdata, sel, t, count, masks)
    requires count <= |starts| && i < count
    ensures RowWrites(vdata, sel, t, count, col, masks, littleEndian, starts)[2 * i] ==
            Put(starts[i], StoreValue(RowValue(vdata, sel, t, i), littleEndian))
    ensures RowWrites(vdata, sel, t, count, col, masks, littleEndian, starts)[2 * i + 1] ==
            MaskWrite(vdata, masks, col, i)
    decreases count
  {
    if i < count - 1 {
      RowWritesAt(vdata, sel, t, count - 1, col, masks, littleEndian, starts, i);
    }
  }

  /** Row i's store and mask byte lie inside memory. */
  predicate RowsFit(vdata: VectorData, sel: seq<nat>, t: PhysicalType, count: nat, col: nat, masks: Option<seq<nat>>,
                    littleEndian: bool, starts: seq<nat>, size: nat)
    requires RowSerializable(t) && RowSelects(vdata, sel, t, count, masks)
  {
    count <= |starts| &&
    forall i :: 0 <= i < count ==>
      starts[i] + StoredWidth(RowValue(vdata, sel, t, i)) <= size &&
      (masks.Some? ==> MaskByte(masks.value, i, col) < size)
  }

  /** Store<uint32_t> of a string's size at key_locations[i], then memcpy of its bytes; the location moves past both. */
  method StoreStringEntry(mem: array<bv8>, locs: array<nat>, size: bv32, chars: seq<bv8>, littleEndian: bool, i: nat)
    requires i < locs.Length
    requires locs[i] + PREFIX_LENGTH + |chars| <= mem.Length && mem as object != locs
    modifies mem, locs
    ensures mem[..] == ApplyWrite(old(mem[..]), Put(old(locs[i]), StoreString(size, chars, littleEndian)))
    ensures locs[..] == old(locs[..])[i := old(locs[i]) + PREFIX_LENGTH + |chars|]
  {
    ghost var m0 := mem[..];
    var at := locs[i];
    var prefix := Host32(size, littleEndian);
    WriteBytes(mem, at, prefix);
    locs[i] := at + PREFIX_LENGTH;
    WriteBytes(mem, at + PREFIX_LENGTH, chars);
    locs[i] := locs[i] + |chars|;
    ApplyPutAdjacent(m0, at, prefix, chars);
  }

  /** Store<T> of a fixed-width value at key_locations[i], which moves past it by sizeof(T). */
  method StoreFixedEntry(mem: array<bv8>, locs: array<nat>, v: Value, t: PhysicalType, littleEndian: bool, i: nat)
    requires TypeIsConstantSize(t) && HasType(v, t) && i < locs.Length
    requires locs[i] + TypeIdSize(t) <= mem.Length && mem as object != locs
    modifies mem, locs
    ensures mem[..] == ApplyWrite(old(mem[..]), Put(old(locs[i]), StoreFixed(v, littleEndian)))
    ensures locs[..] == old(locs[..])[i := old(locs[i]) + TypeIdSize(t)]
  {
    LoadStoreFixed(v, t, littleEndian);
    WriteBytes(mem, locs[i], StoreFixed(v, littleEndian));
    locs[i] := locs[i] + TypeIdSize(t);
  }

  /** Store<T> of row i's value at key_locations[i], which moves past it. */
  method StoreRowValue(mem: array<bv8>, locs: array<nat>, v: Value, t: PhysicalType, littleEndian: bool, i: nat)
    requires RowSerializable(t) && HasType(v, t) && i < locs.Length
    requires locs[i] + StoredWidth(v) <= mem.Length && mem as object != locs
    modifies mem, locs
    ensures mem[..] == ApplyWrite(old(mem[..]), Put(old(locs[i]), StoreValue(v, littleEndian)))
    ensures locs[..] == old(locs[..])[i := old(locs[i]) + StoredWidth(v)]
  {
    if t == VARCHAR {
      StoreStringEntry(mem, locs, v.size, v.chars, littleEndian, i);
    } else {
      StoreFixedEntry(mem, locs, v, t, littleEndian, i);
    }
  }

  /** `*(validitymask_locations[i] + col / 8) &= ~(1 << col % 8)` when row i is NULL and there is a mask. */
  method MarkNull(mem: array<bv8>, vdata: VectorData, masks: Option<seq<nat>>, col: nat, i: nat)
    requires masks.Some? ==> i < |masks.value| && i < |vdata.validity| && MaskByte(masks.value, i, col) < mem.Length
    modifies mem
    ensures mem[..] == ApplyWrite(old(mem[..]), MaskWrite(vdata, masks, col, i))
  {
    if masks.Some? && !vdata.validity[i] {
      ClearMaskBit(mem, MaskByte(masks.value, i, col), col % 8);
    } else {
      ApplyNoWrite(mem[..]);
    }
  }

  /** One iteration of the serialising loops: the store, then the mask update. */
  method SerializeRowData(mem: array<bv8>, locs: array<nat>, vdata: VectorData, sel: seq<nat>, t: PhysicalType,
                          col: nat, masks: Option<seq<nat>>, littleEndian: bool, i: nat)
    requires RowSerializable(t) && RowInRange(vdata, sel, t, i) && AllHaveType(vdata, t) && i < locs.Length
    requires masks.Some? ==> i < |masks.value| && i < |vdata.validity|
    requires locs[i] + StoredWidth(RowValue(vdata, sel, t, i)) <= mem.Length
    requires masks.Some? ==> MaskByte(masks.value, i, col) < mem.Length
    requires mem as object != locs
    modifies mem, locs
    ensures mem[..] == ApplyWrite(ApplyWrite(old(mem[..]), Put(old(locs[i]), StoreValue(RowValue(vdata, sel, t, i), littleEndian))),
                                  MaskWrite(vdata, masks, col, i))
    ensures locs[..] == old(locs[..])[i := old(locs[i]) + StoredWidth(RowValue(vdata, sel, t, i))]
  {
    StoreRowValue(mem, locs, vdata.data[RowSource(vdata, sel, t, i)], t, littleEndian, i);
    MarkNull(mem, vdata, masks, col, i);
  }

  /** The key locations once the first `done` rows are serialised: each moved past its row's value. */
  predicate Advanced(locs: seq<nat>, starts: seq<nat>, vdata: VectorData, sel: seq<nat>, t: PhysicalType, done: nat)
    requires RowSelects(vdata, sel, t, done, None)
  {
    |locs| == |starts| && done <= |locs| &&
    (forall k :: 0 <= k < done ==> locs[k] == starts[k] + StoredWidth(RowValue(vdata, sel, t, k))) &&
    (forall k :: done <= k < |locs| ==> locs[k] == starts[k])
  }

  /** The state after the first `done` rows are serialised: memory holds their writes, their key locations moved past them. */
  predicate Serialized(mem: seq<bv8>, locs: seq<nat>, m0: seq<bv8>, starts: seq<nat>, vdata: VectorData, sel: seq<nat>,
                       t: PhysicalType, done: nat, col: nat, masks: Option<seq<nat>>, littleEndian: bool)
  {
    RowSerializable(t) && RowSelects(vdata, sel, t, done, masks) && done <= |starts| &&
    AllFit(RowWrites(vdata, sel, t, done, col, masks, littleEndian, starts), |m0|) &&
    mem == ApplyWrites(m0, RowWrites(vdata, sel, t, done, col, masks, littleEndian, starts)) &&
    Advanced(locs, starts, vdata, sel, t, done)
  }

  /** One loop iteration, stated against the state before and after it. */
  method SerializeRowStep(mem: array<bv8>, locs: array<nat>, vdata: VectorData, t: PhysicalType, sel: seq<nat>,
                          count: nat, col: nat, masks: Option<seq<nat>>, littleEndian: bool, i: nat,
                          ghost m0: seq<bv8>, ghost starts: seq<nat>)
    requires RowSerializable(t) && RowSelects(vdata, sel, t, count, masks) && AllHaveType(vdata, t)
    requires i < count <= locs.Length && |m0| == mem.Length && mem as object != locs
    requires RowsFit(vdata, sel, t, count, col, masks, littleEndian, starts, mem.Length)
    requires Serialized(mem[..], locs[..], m0, starts, vdata, sel, t, i, col, masks, littleEndian)
    modifies mem, locs
    ensures Serialized(mem[..], locs[..], m0, starts, vdata, sel, t, i + 1, col, masks, littleEndian)
  {
    SerializeRowData(mem, locs, vdata, sel, t, col, masks, littleEndian, i);
    RowWritesStep(m0, vdata, sel, t, i, col, masks, littleEndian, starts);
  }

  /** The loop of TemplatedSerializeVData<T> and of the VARCHAR case. */
  method SerializeRows(mem: array<bv8>, locs: array<nat>, vdata: VectorData, t: PhysicalType, sel: seq<nat>,
                       count: nat, col: nat, masks: Option<seq<nat>>, littleEndian: bool)
    requires RowSerializable(t) && RowSelects(vdata, sel, t, count, masks) && AllHaveType(vdata, t) && count <= locs.Length
    requires RowsFit(vdata, sel, t, count, col, masks, littleEndian, locs[..], mem.Length) && mem as object != locs
    modifies mem, locs
    ensures Serialized(mem[..], locs[..], old(mem[..]), old(locs[..]), vdata, sel, t, count, col, masks, littleEndian)
  {
    ghost var starts := locs[..];
    ghost var m0 := mem[..];
    assert Serialized(m0, starts, m0, starts, vdata, sel, t, 0, col, masks, littleEndian);
    var i := 0;
    while i < count
      invariant 0 <= i <= count
      invariant Serialized(mem[..], locs[..], m0, starts, vdata, sel, t, i, col, masks, littleEndian)
    {
      SerializeRowStep(mem, locs, vdata, t, sel, count, col, masks, littleEndian, i, m0, starts);
      i := i + 1;
    }
  }

  /**
    SerializeVectorData: LIST and STRUCT throw before anything is written;
    every other type performs RowWrites and moves each key location past
    the row's value.
   */
  method SerializeVectorData(mem: array<bv8>, locs: array<nat>, vdata: VectorData, t: PhysicalType, sel: seq<nat>,
                             count: nat, col: nat, masks: Option<seq<nat>>, littleEndian: bool)
    returns (out: Outcome)
    requires RowSelects(vdata, sel, t, count, masks) && AllHaveType(vdata, t) && AllStringsSized(vdata)
    requires count <= locs.Length
    requires RowSerializable(t) ==> RowsFit(vdata, sel, t, count, col, masks, littleEndian, locs[..], mem.Length)
    requires mem as object != locs
    modifies mem, locs
    ensures !RowSerializable(t) ==> out == Failed(NotImplemented("FIXME: unimplemented serialize")) && unchanged(mem, locs)
    ensures RowSerializable(t) ==>
              out == Done &&
              AllFit(RowWrites(vdata, sel, t, count, col, masks, littleEndian, old(locs[..])), mem.Length) &&
              mem[..] == ApplyWrites(old(mem[..]), RowWrites(vdata, sel, t, count, col, masks, littleEndian, old(locs[..])))
    ensures RowSerializable(t) ==> Advanced(locs[..], old(locs[..]), vdata, sel, t, count)
  {
    if !RowSerializable(t) {
      return Failed(NotImplemented("FIXME: unimplemented serialize"));
    }
    SerializeRows(mem, locs, vdata, t, sel, count, col, masks, littleEndian);
    return Done;
  }

  /** Performing the writes of one more row is performing that row's store, then its mask update. */
  lemma {:induction false} RowWritesStep(m0: seq<bv8>, vdata: VectorData, sel: seq<nat>, t: PhysicalType, i: nat, col: nat,
                      masks: Option<seq<nat>>, littleEndian: bool, starts: seq<nat>)
    requires RowSerializable(t) && RowSelects(vdata, sel, t, i + 1, masks) && i < |starts|
    requires AllFit(RowWrites(vdata, sel, t, i, col, masks, littleEndian, starts), |m0|)
    requires starts[i] + StoredWidth(RowValue(vdata, sel, t, i)) <= |m0|
    requires masks.Some? ==> MaskByte(masks.value, i, col) < |m0|
    ensures AllFit(RowWrites(vdata, sel, t, i + 1, col, masks, littleEndian, starts), |m0|)
    ensures ApplyWrites(m0, RowWrites(vdata, sel, t, i + 1, col, masks, littleEndian, starts)) ==
            ApplyWrite(ApplyWrite(ApplyWrites(m0, RowWrites(vdata, sel, t, i, col, masks, littleEndian, starts)),
                                  Put(starts[i], StoreValue(RowValue(vdata, sel, t, i), littleEndian))),
                       MaskWrite(vdata, masks, col, i))
  {
    var ws := RowWrites(vdata, sel, t, i, col, masks, littleEndian, starts);
    var p := Put(starts[i], StoreValue(RowValue(vdata, sel, t, i), littleEndian));
    var w := MaskWrite(vdata, masks, col, i);
    assert RowWrites(vdata, sel, t, i + 1, col, masks, littleEndian, starts) == (ws + [p]) + [w];
    ApplyWritesSnoc(m0, ws, p);
    ApplyWritesSnoc(m0, ws + [p], w);
  }

  /** With no two writes overlapping, row i's stored bytes survive all the later writes. */
  lemma {:induction false} RowSlotReadBack(m0: seq<bv8>, vdata: VectorData, sel: seq<nat>, t: PhysicalType, count: nat, col: nat,
                        masks: Option<seq<nat>>, littleEndian: bool, starts: seq<nat>, i: nat)
    requires RowSerializable(t) && RowSelects(vdata, sel, t, count, masks) && count <= |starts| && i < count
    requires AllFit(RowWrites(vdata, sel, t, count, col, masks, littleEndian, starts), |m0|)
    requires Disjoint(RowWrites(vdata, sel, t, count, col, masks, littleEndian, starts))
    ensures var m := ApplyWrites(m0, RowWrites(vdata, sel, t, count, col, masks, littleEndian, starts));
            var v := RowValue(vdata, sel, t, i);
            starts[i] + StoredWidth(v) <= |m| && m[starts[i]..starts[i] + StoredWidth(v)] == StoreValue(v, littleEndian)
  {
    var ws := RowWrites(vdata, sel, t, count, col, masks, littleEndian, starts);
    RowWritesAt(vdata, sel, t, count, col, masks, littleEndian, starts, i);
    assert InBounds(ws[2 * i], |m0|);
    ApplyWritesReadsPut(m0, ws, 2 * i);
  }

  /**
    Round trip, values: after SerializeVectorData's writes (no two of them
    overlapping), the reader at row i's start finds the row's value and
    steps over exactly the bytes the writer advanced by.
   */
  lemma {:induction false} RowValueReadBack(m0: seq<bv8>, vdata: VectorData, sel: seq<nat>, t: PhysicalType, count: nat, col: nat,
                         masks: Option<seq<nat>>, littleEndian: bool, starts: seq<nat>, i: nat)
    requires RowSerializable(t) && RowSelects(vdata, sel, t, count, masks) && AllHaveType(vdata, t) && count <= |starts|
    requires AllFit(RowWrites(vdata, sel, t, count, col, masks, littleEndian, starts), |m0|)
    requires Disjoint(RowWrites(vdata, sel, t, count, col, masks, littleEndian, starts))
    requires i < count && StringSized(RowValue(vdata, sel, t, i))
    ensures ReadsBack(ApplyWrites(m0, RowWrites(vdata, sel, t, count, col, masks, littleEndian, starts)),
                      starts[i], RowValue(vdata, sel, t, i), t, littleEndian)
  {
    var m := ApplyWrites(m0, RowWrites(vdata, sel, t, count, col, masks, littleEndian, starts));
    var v := RowValue(vdata, sel, t, i);
    RowSlotReadBack(m0, vdata, sel, t, count, col, masks, littleEndian, starts, i);
    assert HasType(v, t);
    ReadStoredValue(m, starts[i], v, t, littleEndian);
  }

  /**
    Round trip, validity: a row's bit reads back set exactly when the row is
    valid and the bit was set before (the mask starts out all valid). A
    valid row's mask byte must lie outside every write.
   */
  lemma {:induction false} RowValidityReadBack(m0: seq<bv8>, vdata: VectorData, sel: seq<nat>, t: PhysicalType, count: nat, col: nat,
                            masks: seq<nat>, littleEndian: bool, starts: seq<nat>, i: nat)
    requires RowSerializable(t) && RowSelects(vdata, sel, t, count, Some(masks)) && count <= |starts|
    requires AllFit(RowWrites(vdata, sel, t, count, col, Some(masks), littleEndian, starts), |m0|)
    requires Disjoint(RowWrites(vdata, sel, t, count, col, Some(masks), littleEndian, starts))
    requires i < count && MaskByte(masks, i, col) < |m0|
    requires vdata.validity[i] ==> Untouched(RowWrites(vdata, sel, t, count, col, Some(masks), littleEndian, starts), MaskByte(masks, i, col))
    ensures var m := ApplyWrites(m0, RowWrites(vdata, sel, t, count, col, Some(masks), littleEndian, starts));
            BitIsSet(m[MaskByte(masks, i, col)], col % 8) <==> vdata.validity[i] && BitIsSet(m0[MaskByte(masks, i, col)], col % 8)
  {
    var ws := RowWrites(vdata, sel, t, count, col, Some(masks), littleEndian, starts);
    var at := MaskByte(masks, i, col);
    RowWritesAt(vdata, sel, t, count, col, Some(masks), littleEndian, starts, i);
    if vdata.validity[i] {
      ApplyWritesUntouched(m0, ws, at);
    } else {
      ApplyWritesReadsClearBit(m0, ws, 2 * i + 1);
    }
  }

  // ---------------------------------------------------------------------------
  // DeserializeIntoVectorData and SkipOverType

  /** Load<T> at `at` (for VARCHAR the size, then the bytes it counts), and how far the reader moves past it. */
  method LoadRowValue(mem: array<bv8>, at: nat, t: PhysicalType, littleEndian: bool) returns (v: Value, width: nat)
    requires RowSerializable(t) && Readable(mem[..], at, t, littleEndian)
    ensures v == ReadValue(mem[..], at, t, littleEndian)
    ensures width == ReadWidth(mem[..], at, t, littleEndian)
  {
    if t == VARCHAR {
      var size := LoadHost32(mem[at..at + PREFIX_LENGTH], littleEndian);
      var len := Unsigned32(size);
      v := Str(size, mem[at + PREFIX_LENGTH..at + PREFIX_LENGTH + len]);
      width := PREFIX_LENGTH + len;
    } else {
      v := LoadFixed(mem[at..at + TypeIdSize(t)], t, littleEndian);
      width := TypeIdSize(t);
    }
  }

  /** One iteration of the deserialising loops: the row's value, its key location moved past it, and its validity bit. */
  method DeserializeRow(mem: array<bv8>, locs: array<nat>, t: PhysicalType, col: nat, masks: seq<nat>,
                        littleEndian: bool, i: nat)
    returns (v: Value, valid: bool)
    requires RowSerializable(t) && i < locs.Length && i < |masks| && mem as object != locs
    requires Readable(mem[..], locs[i], t, littleEndian) && MaskByte(masks, i, col) < mem.Length
    modifies locs
    ensures v == ReadValue(mem[..], old(locs[i]), t, littleEndian)
    ensures valid <==> BitIsSet(mem[MaskByte(masks, i, col)], col % 8)
    ensures locs[..] == old(locs[..])[i := old(locs[i]) + ReadWidth(mem[..], old(locs[i]), t, littleEndian)]
  {
    var at := locs[i];
    var width;
    v, width := LoadRowValue(mem, at, t, littleEndian);
    locs[i] := at + width;
    valid := BitIsSet(mem[MaskByte(masks, i, col)], col % 8);
  }

  /**
    DeserializeIntoVectorData (TemplatedDeserializeIntoVector<T> and the
    VARCHAR case): row i's value is read at key_locations[i], which moves
    past it, and its validity is the column's bit in the row's mask. LIST
    and STRUCT throw before anything is read.
   */
  method DeserializeIntoVectorData(mem: array<bv8>, locs: array<nat>, t: PhysicalType, count: nat, col: nat,
                                   masks: seq<nat>, littleEndian: bool)
    returns (out: Outcome, values: seq<Value>, validity: seq<bool>)
    requires count <= locs.Length && count <= |masks| && mem as object != locs
    requires RowSerializable(t) ==>
               forall i :: 0 <= i < count ==> Readable(mem[..], locs[i], t, littleEndian) && MaskByte(masks, i, col) < mem.Length
    modifies locs
    ensures !RowSerializable(t) ==> out == Failed(NotImplemented("FIXME: unimplemented deserialize")) && unchanged(locs)
    ensures RowSerializable(t) ==>
              out == Done && |values| == count && |validity| == count &&
              forall i :: 0 <= i < count ==>
                values[i] == ReadValue(mem[..], old(locs[i]), t, littleEndian) &&
                (validity[i] <==> BitIsSet(mem[MaskByte(masks, i, col)], col % 8)) &&
                locs[i] == old(locs[i]) + ReadWidth(mem[..], old(locs[i]), t, littleEndian)
    ensures forall i :: count <= i < locs.Length ==> locs[i] == old(locs[i])
  {
    values, validity := [], [];
    if !RowSerializable(t) {
      return Failed(NotImplemented("FIXME: unimplemented deserialize")), values, validity;
    }
    ghost var starts := locs[..];
    var i := 0;
    while i < count
      invariant 0 <= i <= count && |values| == i && |validity| == i
      invariant forall k :: 0 <= k < i ==>
                  values[k] == ReadValue(mem[..], starts[k], t, littleEndian) &&
                  (validity[k] <==> BitIsSet(mem[MaskByte(masks, k, col)], col % 8)) &&
                  locs[k] == starts[k] + ReadWidth(mem[..], starts[k], t, littleEndian)
      invariant forall k :: i <= k < locs.Length ==> locs[k] == starts[k]
    {
      var v, valid := DeserializeRow(mem, locs, t, col, masks, littleEndian, i);
      values := values + [v];
      validity := validity + [valid];
      i := i + 1;
    }
    return Done, values, validity;
  }

  /**
    SkipOverType: a constant-size type moves every key location by its
    size; VARCHAR moves it past the stored size and the bytes it counts;
    every other type throws.
   */
  method SkipOverType(mem: array<bv8>, locs: array<nat>, t: PhysicalType, count: nat, littleEndian: bool)
    returns (out: Outcome)
    requires count <= locs.Length && mem as object != locs
    requires t == VARCHAR ==> forall i :: 0 <= i < count ==> locs[i] + PREFIX_LENGTH <= mem.Length
    modifies locs
    ensures !RowSerializable(t) ==> out == Failed(NotImplemented("FIXME: unimplemented SkipOverType")) && unchanged(locs)
    ensures RowSerializable(t) ==> out == Done
    ensures TypeIsConstantSize(t) ==> forall i :: 0 <= i < count ==> locs[i] == old(locs[i]) + TypeIdSize(t)
    ensures t == VARCHAR ==>
              forall i :: 0 <= i < count ==> locs[i] == old(locs[i]) + PREFIX_LENGTH + StringLength(mem[..], old(locs[i]), littleEndian)
    ensures forall i :: count <= i < locs.Length ==> locs[i] == old(locs[i])
  {
    if TypeIsConstantSize(t) {
      var size := TypeIdSize(t);
      var i := 0;
      while i < count
        invariant 0 <= i <= count
        invariant forall k :: 0 <= k < i ==> locs[k] == old(locs[k]) + size
        invariant forall k :: i <= k < locs.Length ==> locs[k] == old(locs[k])
      {
        locs[i] := locs[i] + size;
        i := i + 1;
      }
      return Done;
    } else if t == VARCHAR {
      var i := 0;
      while i < count
        invariant 0 <= i <= count
        invariant forall k :: 0 <= k < i ==> locs[k] == old(locs[k]) + PREFIX_LENGTH + StringLength(mem[..], old(locs[k]), littleEndian)
        invariant forall k :: i <= k < locs.Length ==> locs[k] == old(locs[k])
      {
        locs[i] := locs[i] + PREFIX_LENGTH + Unsigned32(LoadHost32(mem[locs[i]..locs[i] + PREFIX_LENGTH], littleEndian));
        i := i + 1;
      }
      return Done;
    }
    return Failed(NotImplemented("FIXME: unimplemented SkipOverType"));
  }

  /**
    Skipping serialised rows: in the memory SerializeVectorData leaves (no
    two writes overlapping), the step SkipOverType takes at row i's start
    (sizeof(T), or 4 plus the size read there) is exactly the number of
    bytes the serialiser stored for row i, so the location ends where
    SerializeVectorData moved it.
   */
  lemma {:induction false} SkipPassesStoredValue(m0: seq<bv8>, vdata: VectorData, sel: seq<nat>, t: PhysicalType, count: nat,
                              col: nat, masks: Option<seq<nat>>, littleEndian: bool, starts: seq<nat>, i: nat)
    requires RowSerializable(t) && RowSelects(vdata, sel, t, count, masks) && AllHaveType(vdata, t) && AllStringsSized(vdata)
    requires count <= |starts| && i < count
    requires AllFit(RowWrites(vdata, sel, t, count, col, masks, littleEndian, starts), |m0|)
    requires Disjoint(RowWrites(vdata, sel, t, count, col, masks, littleEndian, starts))
    ensures var m := ApplyWrites(m0, RowWrites(vdata, sel, t, count, col, masks, littleEndian, starts));
            (t == VARCHAR ==> starts[i] + PREFIX_LENGTH <= |m|) &&
            (if TypeIsConstantSize(t) then TypeIdSize(t) else PREFIX_LENGTH + StringLength(m, starts[i], littleEndian)) ==
            StoredWidth(RowValue(vdata, sel, t, i))
  {
    var m := ApplyWrites(m0, RowWrites(vdata, sel, t, count, col, masks, littleEndian, starts));
    assert StringSized(RowValue(vdata, sel, t, i));
    RowValueReadBack(m0, vdata, sel, t, count, col, masks, littleEndian, starts, i);
    SkipMatchesRead(m, starts[i], t, littleEndian);
  }

  /** Where a value is readable, SkipOverType and DeserializeIntoVectorData move a key location equally far. */
  lemma SkipMatchesRead(m: seq<bv8>, at: nat, t: PhysicalType, littleEndian: bool)
    requires Readable(m, at, t, littleEndian)
    ensures ReadWidth(m, at, t, littleEndian) ==
            (if TypeIsConstantSize(t) then TypeIdSize(t) else PREFIX_LENGTH + StringLength(m, at, littleEndian))
  {}
}
