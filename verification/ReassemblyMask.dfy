/** The reassembly bitmask of ssl/d1_both.c: one bit per message byte, marked by
    ranges and tested for completeness a byte at a time. */
module ReassemblyMask {

  /** `1 << k` */
  function Bit(k: nat): bv8
    requires k < 8
  {
    if k == 0 then 0x01 else if k == 1 then 0x02 else if k == 2 then 0x04 else if k == 3 then 0x08
    else if k == 4 then 0x10 else if k == 5 then 0x20 else if k == 6 then 0x40 else 0x80
  }

  predicate HasBit(b: bv8, k: nat)
    requires k < 8
  {
    b & Bit(k) != 0
  }

  /** bitmask_start_values */
  function StartValue(k: nat): bv8
    requires k < 8
  {
    if k == 0 then 0xff else if k == 1 then 0xfe else if k == 2 then 0xfc else if k == 3 then 0xf8
    else if k == 4 then 0xf0 else if k == 5 then 0xe0 else if k == 6 then 0xc0 else 0x80
  }

  /** bitmask_end_values */
  function EndValue(k: nat): bv8
    requires k < 8
  {
    if k == 0 then 0xff else if k == 1 then 0x01 else if k == 2 then 0x03 else if k == 3 then 0x07
    else if k == 4 then 0x0f else if k == 5 then 0x1f else if k == 6 then 0x3f else 0x7f
  }

  method OrBit(b: bv8, k: nat) returns (r: bv8)
    requires k < 8
    ensures forall j :: 0 <= j < 8 ==> HasBit(r, j) == (HasBit(b, j) || j == k)
  {
    r := b | Bit(k);
  }

  method OrStart(b: bv8, k: nat) returns (r: bv8)
    requires k < 8
    ensures forall j :: 0 <= j < 8 ==> HasBit(r, j) == (HasBit(b, j) || j >= k)
  {
    r := b | StartValue(k);
  }

  method OrEnd(b: bv8, k: nat) returns (r: bv8)
    requires k < 8
    ensures forall j :: 0 <= j < 8 ==> HasBit(r, j) == (HasBit(b, j) || k == 0 || j < k)
  {
    r := b | EndValue(k);
  }

  lemma FullByte(b: bv8)
    ensures b == 0xff <==> forall j :: 0 <= j < 8 ==> HasBit(b, j)
  {
    assert forall j :: 0 <= j < 8 ==> HasBit(b, j) ==> true;
    if forall j :: 0 <= j < 8 ==> HasBit(b, j) {
      assert HasBit(b, 0) && HasBit(b, 1) && HasBit(b, 2) && HasBit(b, 3);
      assert HasBit(b, 4) && HasBit(b, 5) && HasBit(b, 6) && HasBit(b, 7);
    }
  }

  lemma LastByte(b: bv8, k: nat)
    requires k < 8
    ensures b == EndValue(k) <==> forall j :: 0 <= j < 8 ==> HasBit(b, j) == (k == 0 || j < k)
  {
    if forall j :: 0 <= j < 8 ==> HasBit(b, j) == (k == 0 || j < k) {
      assert HasBit(b, 0) == (k == 0 || 0 < k) && HasBit(b, 1) == (k == 0 || 1 < k);
      assert HasBit(b, 2) == (k == 0 || 2 < k) && HasBit(b, 3) == (k == 0 || 3 < k);
      assert HasBit(b, 4) == (k == 0 || 4 < k) && HasBit(b, 5) == (k == 0 || 5 < k);
      assert HasBit(b, 6) == (k == 0 || 6 < k) && HasBit(b, 7) == (k == 0 || 7 < k);
    }
  }

  /** Bit `r` of byte `q`, which stands for message byte `8 * q + r`. */
  predicate Flag(mask: seq<bv8>, q: nat, r: nat)
    requires q < |mask| && r < 8
  {
    HasBit(mask[q], r)
  }

  /** `now` is `was` with the flags of the bytes `start .. end` added. */
  predicate MarkedFrom(was: seq<bv8>, now: seq<bv8>, start: nat, end: nat) {
    |now| == |was|
    && forall q, r :: 0 <= q < |was| && 0 <= r < 8 ==> Flag(now, q, r) == (Flag(was, q, r) || start <= 8 * q + r < end)
  }

  /** RSMBLY_BITMASK_MARK, the short form: one bit at a time. */
  method MarkBits(was: seq<bv8>, start: nat, end: nat) returns (bitmask: seq<bv8>)
    requires start <= end <= 8 * |was|
    ensures MarkedFrom(was, bitmask, start, end)
  {
    bitmask := was;
    var i := start;
    while i < end
      invariant start <= i <= end
      invariant MarkedFrom(was, bitmask, start, i)
    {
      var q, r := i / 8, i % 8;
      ghost var before := bitmask;
      var b := OrBit(bitmask[q], r);
      bitmask := bitmask[q := b];
      MarkOne(was, before, bitmask, start, i, q, r);
      i := i + 1;
    }
  }

  lemma MarkOne(was: seq<bv8>, before: seq<bv8>, now: seq<bv8>, start: nat, i: nat, q: nat, r: nat)
    requires MarkedFrom(was, before, start, i) && start <= i == 8 * q + r && q < |was| && r < 8
    requires |now| == |was| && forall k :: 0 <= k < |was| && k != q ==> now[k] == before[k]
    requires forall j :: 0 <= j < 8 ==> HasBit(now[q], j) == (HasBit(before[q], j) || j == r)
    ensures MarkedFrom(was, now, start, i + 1)
  {
    forall k, j | 0 <= k < |was| && 0 <= j < 8
      ensures Flag(now, k, j) == (Flag(was, k, j) || start <= 8 * k + j < i + 1)
    {
      assert Flag(before, k, j) == (Flag(was, k, j) || start <= 8 * k + j < i);
      if k == q {
        assert HasBit(now[q], j) == (HasBit(before[q], j) || j == r);
      }
    }
  }

  /** RSMBLY_BITMASK_MARK, the long form: a first byte, whole bytes, a last byte. */
  method MarkBytes(was: seq<bv8>, start: nat, end: nat) returns (bitmask: seq<bv8>)
    requires start + 8 < end <= 8 * |was|
    ensures MarkedFrom(was, bitmask, start, end)
  {
    var first, last := start / 8, (end - 1) / 8;
    var b := OrStart(was[first], start % 8);
    bitmask := was[first := b];
    var i := first + 1;
    while i < last
      invariant first < i <= last && |bitmask| == |was|
      invariant bitmask[first] == b
      invariant forall k :: 0 <= k < |was| && k != first && !(first < k < i) ==> bitmask[k] == was[k]
      invariant forall k :: first < k < i ==> bitmask[k] == 0xff
    {
      bitmask := bitmask[i := 0xff];
      i := i + 1;
    }
    var c := OrEnd(bitmask[last], end % 8);
    bitmask := bitmask[last := c];
    FullByte(0xff);
    MarkMany(was, bitmask, start, end, first, last);
  }

  lemma MarkMany(was: seq<bv8>, now: seq<bv8>, start: nat, end: nat, first: nat, last: nat)
    requires |now| == |was| && first < last < |was|
    requires 8 * first <= start < 8 * first + 8 && 8 * last < end <= 8 * last + 8
    requires forall j :: 0 <= j < 8 ==> HasBit(now[first], j) == (HasBit(was[first], j) || j >= start % 8)
    requires forall j :: 0 <= j < 8 ==> HasBit(now[last], j) == (HasBit(was[last], j) || end % 8 == 0 || j < end % 8)
    requires forall k :: first < k < last ==> now[k] == 0xff
    requires forall j :: 0 <= j < 8 ==> HasBit(0xff, j)
    requires forall k :: 0 <= k < |was| && !(first <= k <= last) ==> now[k] == was[k]
    ensures MarkedFrom(was, now, start, end)
  {
    assert start % 8 == start - 8 * first;
    assert end % 8 == if end == 8 * last + 8 then 0 else end - 8 * last;
    forall k, j | 0 <= k < |was| && 0 <= j < 8
      ensures Flag(now, k, j) == (Flag(was, k, j) || start <= 8 * k + j < end)
    {
      if k == first {
        assert HasBit(now[first], j) == (HasBit(was[first], j) || j >= start % 8);
      } else if k == last {
        assert HasBit(now[last], j) == (HasBit(was[last], j) || end % 8 == 0 || j < end % 8);
      } else if first < k < last {
        assert HasBit(0xff, j);
      }
    }
  }

  /** RSMBLY_BITMASK_MARK */
  method Mark(was: seq<bv8>, start: nat, end: nat) returns (bitmask: seq<bv8>)
    requires start <= end <= 8 * |was|
    ensures MarkedFrom(was, bitmask, start, end)
  {
    if end - start <= 8 {
      bitmask := MarkBits(was, start, end);
    } else {
      bitmask := MarkBytes(was, start, end);
    }
  }

  /** The flags of `mask` are exactly the members of `covered`, all below `msgLen`. */
  predicate Represents(mask: seq<bv8>, msgLen: nat, covered: set<nat>) {
    msgLen <= 8 * |mask| < msgLen + 8
    && forall q, r :: 0 <= q < |mask| && 0 <= r < 8 ==> Flag(mask, q, r) == (8 * q + r in covered && 8 * q + r < msgLen)
  }

  lemma NothingMarked(mask: seq<bv8>, msgLen: nat)
    requires msgLen <= 8 * |mask| < msgLen + 8
    requires forall q :: 0 <= q < |mask| ==> mask[q] == 0
    ensures Represents(mask, msgLen, {})
  {
    forall q, r | 0 <= q < |mask| && 0 <= r < 8
      ensures !Flag(mask, q, r)
    {
      assert mask[q] == 0;
      NoBits(r);
    }
  }

  lemma NoBits(k: nat)
    requires k < 8
    ensures !HasBit(0, k)
  {
  }

  /** The set of byte positions of a fragment. */
  function Range(start: nat, end: nat): (r: set<nat>)
    ensures forall i: nat :: i in r <==> start <= i < end
  {
    if start < end then Range(start, end - 1) + {end - 1} else {}
  }

  lemma MarkingRepresents(was: seq<bv8>, now: seq<bv8>, msgLen: nat, covered: set<nat>, start: nat, end: nat)
    requires Represents(was, msgLen, covered) && MarkedFrom(was, now, start, end) && end <= msgLen
    ensures Represents(now, msgLen, covered + Range(start, end))
  {
    forall q, r | 0 <= q < |now| && 0 <= r < 8
      ensures Flag(now, q, r) == (8 * q + r in covered + Range(start, end) && 8 * q + r < msgLen)
    {
      assert Flag(was, q, r) == (8 * q + r in covered && 8 * q + r < msgLen);
      assert Flag(now, q, r) == (Flag(was, q, r) || start <= 8 * q + r < end);
    }
  }

  predicate AllCovered(msgLen: nat, covered: set<nat>) {
    forall i: nat :: i < msgLen ==> i in covered
  }

  /** RSMBLY_BITMASK_IS_COMPLETE: complete exactly when every message byte is covered. */
  method IsComplete(bitmask: seq<bv8>, msgLen: nat, ghost covered: set<nat>) returns (complete: bool)
    requires msgLen > 0 && Represents(bitmask, msgLen, covered)
    ensures complete <==> AllCovered(msgLen, covered)
  {
    var last := (msgLen - 1) / 8;
    assert last == |bitmask| - 1;
    complete := true;
    if bitmask[last] != EndValue(msgLen % 8) {
      complete := false;
      LastByteTells(bitmask, msgLen, covered);
    }
    if complete {
      var i := last - 1;
      while i >= 0
        invariant -1 <= i < last
        invariant forall k :: i < k < last ==> bitmask[k] == 0xff
      {
        if bitmask[i] != 0xff {
          FullByteTells(bitmask, msgLen, covered, i);
          return false;
        }
        i := i - 1;
      }
      BytesTellAll(bitmask, msgLen, covered);
    }
  }

  lemma LastByteTells(mask: seq<bv8>, msgLen: nat, covered: set<nat>)
    requires msgLen > 0 && Represents(mask, msgLen, covered)
    requires mask[|mask| - 1] != EndValue(msgLen % 8)
    ensures !AllCovered(msgLen, covered)
  {
    var last, k := |mask| - 1, msgLen % 8;
    assert k == if msgLen == 8 * last + 8 then 0 else msgLen - 8 * last;
    LastByte(mask[last], k);
    var j :| 0 <= j < 8 && HasBit(mask[last], j) != (k == 0 || j < k);
    assert Flag(mask, last, j) == (8 * last + j in covered && 8 * last + j < msgLen);
  }

  lemma FullByteTells(mask: seq<bv8>, msgLen: nat, covered: set<nat>, i: nat)
    requires msgLen > 0 && Represents(mask, msgLen, covered)
    requires i < |mask| - 1 && mask[i] != 0xff
    ensures !AllCovered(msgLen, covered)
  {
    FullByte(mask[i]);
    var j :| 0 <= j < 8 && !HasBit(mask[i], j);
    assert Flag(mask, i, j) == (8 * i + j in covered && 8 * i + j < msgLen);
  }

  lemma BytesTellAll(mask: seq<bv8>, msgLen: nat, covered: set<nat>)
    requires msgLen > 0 && Represents(mask, msgLen, covered)
    requires mask[|mask| - 1] == EndValue(msgLen % 8)
    requires forall k :: 0 <= k < |mask| - 1 ==> mask[k] == 0xff
    ensures AllCovered(msgLen, covered)
  {
    var last, e := |mask| - 1, msgLen % 8;
    assert e == if msgLen == 8 * last + 8 then 0 else msgLen - 8 * last;
    LastByte(mask[last], e);
    FullByte(0xff);
    forall i: nat | i < msgLen
      ensures i in covered
    {
      var q, r := i / 8, i % 8;
      assert i == 8 * q + r;
      assert Flag(mask, q, r) == (8 * q + r in covered && 8 * q + r < msgLen);
      if q == last {
        assert HasBit(mask[last], r) == (e == 0 || r < e);
      } else {
        assert HasBit(0xff, r);
      }
    }
  }
}
