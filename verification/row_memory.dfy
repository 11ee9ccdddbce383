/**
  Memory as the row serialisers see it: one byte sequence addressed by
  natural numbers, changed by a list of writes. A write either stores bytes
  at an address (memcpy, Store<T>, a write through a typed pointer) or
  clears one bit of a byte (the validity-mask update `*p &= ~(1 << k)`).

  The serialising methods are specified by the list of writes they perform;
  the lemmas here read single bytes and whole stores back out of the result.
 */
module RowMemory {

  /** `b` with bit `bit` cleared. */
  function ClearBitOf(b: bv8, bit: nat): (r: bv8)
    requires bit < 8
    ensures r & ((1 as bv8) << bit) == 0
  {
    b & !((1 as bv8) << bit)
  }

  /** Bit `bit` of `b` is set. */
  predicate BitIsSet(b: bv8, bit: nat)
    requires bit < 8
  {
    b & ((1 as bv8) << bit) != 0
  }

  /** Clearing a bit leaves the other bits of the byte alone. */
  lemma ClearBitKeepsOthers(b: bv8, bit: nat, other: nat)
    requires bit < 8 && other < 8 && other != bit
    ensures BitIsSet(ClearBitOf(b, bit), other) <==> BitIsSet(b, other)
  {}

  datatype Write =
    | Put(at: nat, bytes: seq<bv8>)
    | ClearBit(at: nat, bit: nat)

  /** The write that changes nothing: an empty store at address 0. */
  function NoWrite(): (w: Write)
    ensures w.Put? && |w.bytes| == 0
  {
    Put(0, [])
  }

  lemma ApplyNoWrite(m: seq<bv8>)
    ensures ApplyWrite(m, NoWrite()) == m
  {
    assert m[..0] + [] + m[0..] == m;
  }

  /** First address a write touches. */
  function Lo(w: Write): nat { w.at }

  /** One past the last address a write touches. */
  function Hi(w: Write): (hi: nat)
    ensures hi > Lo(w) || (w.Put? && |w.bytes| == 0)
  {
    match w
    case Put(at, bytes) => at + |bytes|
    case ClearBit(at, _) => at + 1
  }

  predicate InBounds(w: Write, size: nat) {
    Hi(w) <= size && (w.ClearBit? ==> w.bit < 8)
  }

  predicate AllFit(ws: seq<Write>, size: nat) {
    forall i :: 0 <= i < |ws| ==> InBounds(ws[i], size)
  }

  /** No two writes touch a common address. */
  predicate Disjoint(ws: seq<Write>) {
    forall i, j :: 0 <= i < j < |ws| ==> Hi(ws[i]) <= Lo(ws[j]) || Hi(ws[j]) <= Lo(ws[i])
  }

  /** Address `k` lies outside every write. */
  predicate Untouched(ws: seq<Write>, k: nat) {
    forall i :: 0 <= i < |ws| ==> k < Lo(ws[i]) || Hi(ws[i]) <= k
  }

  function ApplyWrite(m: seq<bv8>, w: Write): (r: seq<bv8>)
    requires InBounds(w, |m|)
    ensures |r| == |m|
    ensures forall k :: 0 <= k < |m| && (k < Lo(w) || Hi(w) <= k) ==> r[k] == m[k]
  {
    match w
    case Put(at, bytes) => m[..at] + bytes + m[at + |bytes|..]
    case ClearBit(at, bit) => m[at := ClearBitOf(m[at], bit)]
  }

  /** The memory after performing the writes in order. */
  function ApplyWrites(m: seq<bv8>, ws: seq<Write>): (r: seq<bv8>)
    requires AllFit(ws, |m|)
    ensures |r| == |m|
    decreases |ws|
  {
    if |ws| == 0 then m else ApplyWrite(ApplyWrites(m, ws[..|ws| - 1]), ws[|ws| - 1])
  }

  /** Performing one more write extends the list by that write. */
  lemma ApplyWritesSnoc(m: seq<bv8>, ws: seq<Write>, w: Write)
    requires AllFit(ws, |m|) && InBounds(w, |m|)
    ensures AllFit(ws + [w], |m|)
    ensures ApplyWrites(m, ws + [w]) == ApplyWrite(ApplyWrites(m, ws), w)
  {
    assert (ws + [w])[..|ws|] == ws;
  }

  /** Bytes no write touches keep their value. */
  lemma {:induction false} ApplyWritesUntouched(m: seq<bv8>, ws: seq<Write>, k: nat)
    requires AllFit(ws, |m|) && k < |m| && Untouched(ws, k)
    ensures ApplyWrites(m, ws)[k] == m[k]
    decreases |ws|
  {
    if |ws| > 0 {
      ApplyWritesUntouched(m, ws[..|ws| - 1], k);
    }
  }

  /** Bytes a store just put down read back intact. */
  lemma ApplyPutReads(m: seq<bv8>, at: nat, bytes: seq<bv8>)
    requires at + |bytes| <= |m|
    ensures ApplyWrite(m, Put(at, bytes))[at..at + |bytes|] == bytes
  {
    var r := ApplyWrite(m, Put(at, bytes));
    assert r == m[..at] + bytes + m[at + |bytes|..];
    assert |m[..at]| == at;
  }

  /** Two stores side by side are one store of the concatenation. */
  lemma ApplyPutAdjacent(m: seq<bv8>, at: nat, a: seq<bv8>, b: seq<bv8>)
    requires at + |a| + |b| <= |m|
    ensures ApplyWrite(ApplyWrite(m, Put(at, a)), Put(at + |a|, b)) == ApplyWrite(m, Put(at, a + b))
  {
    var m1 := ApplyWrite(m, Put(at, a));
    var m2 := ApplyWrite(m1, Put(at + |a|, b));
    var r := ApplyWrite(m, Put(at, a + b));
    assert m1 == m[..at] + a + m[at + |a|..];
    assert m2 == m1[..at + |a|] + b + m1[at + |a| + |b|..];
    assert r == m[..at] + (a + b) + m[at + |a| + |b|..];
    forall k | 0 <= k < |m|
      ensures m2[k] == r[k]
    {
      if k < at {
      } else if k < at + |a| {
      } else if k < at + |a| + |b| {
      } else {
      }
    }
  }

  /** A slice holding x followed by y holds x first and y after it. */
  lemma SliceSplit(m: seq<bv8>, at: nat, x: seq<bv8>, y: seq<bv8>)
    requires at + |x| + |y| <= |m| && m[at..at + |x| + |y|] == x + y
    ensures m[at..at + |x|] == x
    ensures m[at + |x|..at + |x| + |y|] == y
  {
    assert m[at..at + |x|] == m[at..at + |x| + |y|][..|x|];
    assert m[at + |x|..at + |x| + |y|] == m[at..at + |x| + |y|][|x|..];
  }

  /** With disjoint writes, the bytes a store put down are read back intact. */
  lemma {:induction false} ApplyWritesReadsPut(m: seq<bv8>, ws: seq<Write>, j: nat)
    requires AllFit(ws, |m|) && Disjoint(ws) && j < |ws| && ws[j].Put?
    ensures ApplyWrites(m, ws)[ws[j].at..Hi(ws[j])] == ws[j].bytes
    decreases |ws|
  {
    var n := |ws| - 1;
    var prefix := ws[..n];
    var before := ApplyWrites(m, prefix);
    assert ApplyWrites(m, ws) == ApplyWrite(before, ws[n]);
    if j == n {
      ApplyPutReads(before, ws[j].at, ws[j].bytes);
    } else {
      assert prefix[j] == ws[j];
      ApplyWritesReadsPut(m, prefix, j);
      assert Hi(ws[j]) <= Lo(ws[n]) || Hi(ws[n]) <= Lo(ws[j]);
      ApplyWriteKeepsSlice(before, ws[n], ws[j].at, Hi(ws[j]));
    }
  }

  /** A write outside [lo, hi) leaves that slice alone. */
  lemma ApplyWriteKeepsSlice(m: seq<bv8>, w: Write, lo: nat, hi: nat)
    requires InBounds(w, |m|) && lo <= hi <= |m|
    requires hi <= Lo(w) || Hi(w) <= lo
    ensures ApplyWrite(m, w)[lo..hi] == m[lo..hi]
  {
    var r := ApplyWrite(m, w);
    assert forall k :: lo <= k < hi ==> r[k] == m[k];
  }

  /** With disjoint writes, a cleared bit reads back cleared and the byte's other bits are the original ones. */
  lemma {:induction false} ApplyWritesReadsClearBit(m: seq<bv8>, ws: seq<Write>, j: nat)
    requires AllFit(ws, |m|) && Disjoint(ws) && j < |ws| && ws[j].ClearBit?
    ensures ApplyWrites(m, ws)[ws[j].at] == ClearBitOf(m[ws[j].at], ws[j].bit)
    decreases |ws|
  {
    var n := |ws| - 1;
    var prefix := ws[..n];
    if j == n {
      LastClearBitReads(m, ws);
    } else {
      assert prefix[j] == ws[j];
      ApplyWritesReadsClearBit(m, prefix, j);
      assert Hi(ws[j]) <= Lo(ws[n]) || Hi(ws[n]) <= Lo(ws[j]);
      ApplyWriteKeepsByte(ApplyWrites(m, prefix), ws[n], ws[j].at);
    }
  }

  /** The last write, a bit clear no earlier write overlaps, finds the original byte. */
  lemma LastClearBitReads(m: seq<bv8>, ws: seq<Write>)
    requires AllFit(ws, |m|) && Disjoint(ws) && |ws| > 0 && ws[|ws| - 1].ClearBit?
    ensures ApplyWrites(m, ws)[ws[|ws| - 1].at] == ClearBitOf(m[ws[|ws| - 1].at], ws[|ws| - 1].bit)
  {
    var n := |ws| - 1;
    var prefix := ws[..n];
    var k := ws[n].at;
    forall i | 0 <= i < n
      ensures k < Lo(prefix[i]) || Hi(prefix[i]) <= k
    {
      assert prefix[i] == ws[i];
    }
    ApplyWritesUntouched(m, prefix, k);
  }

  /** A write that does not cover address k leaves its byte alone. */
  lemma ApplyWriteKeepsByte(m: seq<bv8>, w: Write, k: nat)
    requires InBounds(w, |m|) && k < |m| && (k < Lo(w) || Hi(w) <= k)
    ensures ApplyWrite(m, w)[k] == m[k]
  {}

  /** memcpy / Store<T>: the bytes land at `at`, nothing else changes. */
  method WriteBytes(mem: array<bv8>, at: nat, bytes: seq<bv8>)
    requires at + |bytes| <= mem.Length
    modifies mem
    ensures mem[..] == ApplyWrite(old(mem[..]), Put(at, bytes))
  {
    var k := 0;
    while k < |bytes|
      invariant 0 <= k <= |bytes|
      invariant mem[..] == old(mem[..])[..at] + bytes[..k] + old(mem[..])[at + k..]
    {
      mem[at + k] := bytes[k];
      k := k + 1;
    }
  }

  /** `*p &= ~(1 << bit)` on the byte at `at`. */
  method ClearMaskBit(mem: array<bv8>, at: nat, bit: nat)
    requires at < mem.Length && bit < 8
    modifies mem
    ensures mem[..] == ApplyWrite(old(mem[..]), ClearBit(at, bit))
  {
    mem[at] := ClearBitOf(mem[at], bit);
  }
}
