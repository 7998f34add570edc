/** The DTLS anti-replay window of ssl/d1_pkt.c against a plain set of accepted
    record numbers. Section 4.1.2.6 of RFC 6347. */
module ReplayWindow {
  import opened Asn1

  /** A 64-bit value in big-endian order. */
  type Seq64 = s: seq<byte> | |s| == 8 witness [0, 0, 0, 0, 0, 0, 0, 0]

  /** The machine word `unsigned long map`, bit 0 first. */
  type Word = w: seq<bool> | |w| == 64 witness seq(64, _ => false)

  // ---------- saturating subtraction ----------

  /** The value of the last `k` bytes. */
  function Low(v: seq<byte>, k: nat): nat
    requires k <= |v|
  {
    if k == 0 then 0 else v[|v| - k] * Pow256(k - 1) + Low(v, k - 1)
  }

  function Value(v: seq<byte>): nat { Low(v, |v|) }

  function Clamp(d: int): int {
    if d > 128 then 128 else if d < -128 then -128 else d
  }

  /** One byte of a subtraction with borrow: `d` is the difference of the low parts, `x` its residue. */
  lemma BorrowStep(p: nat, brw: int, x: int, d: int, a: byte, b: byte) returns (x': int)
    requires p >= 256 && -1 <= brw <= 0 && d == brw * p + x && 0 <= x < p
    ensures var t := brw + a - b;
            && -1 <= t / 256 <= 0
            && (a * p - b * p) + d == (t / 256) * (256 * p) + x' && 0 <= x' < 256 * p
            && x' == x + t % 256 * p
            && (x' >= 256 <==> x >= 256 || t % 256 != 0)
            && (x' < 256 * p - 256 <==> x < p - 256 || t % 256 != 255)
  {
    var t := brw + a - b;
    var y := t % 256;
    x' := x + y * p;
    assert t == t / 256 * 256 + y;
    assert (a * p - b * p) + d == t * p + x by {
      assert t * p == brw * p + (a * p - b * p) by { Distribute(brw, a, b, p); }
    }
    assert t * p == (t / 256) * (256 * p) + y * p by { SplitProduct(t, p); }
    ScaleBound(y, p);
  }

  lemma Distribute(brw: int, a: int, b: int, p: int)
    ensures (brw + a - b) * p == brw * p + (a * p - b * p)
  {
  }

  lemma SplitProduct(t: int, p: int)
    ensures t * p == (t / 256) * (256 * p) + t % 256 * p
  {
    var q, y := t / 256, t % 256;
    assert t == 256 * q + y;
    assert (256 * q + y) * p == 256 * q * p + y * p;
    assert 256 * q * p == q * (256 * p);
  }

  lemma ScaleBound(y: int, p: nat)
    requires 0 <= y <= 255 && p >= 256
    ensures 0 <= y * p <= 255 * p
    ensures y >= 1 ==> y * p >= p
    ensures y <= 254 ==> y * p <= 254 * p
  {
  }

  lemma Pow256Of8()
    ensures Pow256(8) == 0x1_0000_0000_0000_0000
  {
    assert Pow256(4) == 0x1_0000_0000;
  }

  /** Between two bytes: `d` is the difference of the low parts, `x` its residue modulo `p`, and `sat`
      says that the residue is not a sign extension of its lowest byte `low`. */
  ghost predicate Subtracting(p: nat, brw: int, x: int, d: int, low: int, sat: bool) {
    && p >= 256 && -1 <= brw <= 0 && 0 <= low < 256
    && 0 <= x < p && d == brw * p + x
    && sat == (if low >= 128 then x < p - 256 else x >= 256)
    && (sat ==> 128 <= x <= p - 129)
    && (!sat ==> x == if low >= 128 then p - 256 + low else low)
  }

  lemma SubtractByte(p: nat, brw: int, x: int, d: int, low: int, sat: bool, a: byte, b: byte) returns (x': int)
    requires Subtracting(p, brw, x, d, low, sat)
    ensures var t := brw + a - b;
            Subtracting(256 * p, t / 256, x', a * p - b * p + d, low,
                        sat || if low >= 128 then (-1 - t) % 256 != 0 else t % 256 != 0)
  {
    x' := BorrowStep(p, brw, x, d, a, b);
    var t := brw + a - b;
    assert (-1 - t) % 256 != 0 <==> t % 256 != 255;
    ScaleBound(t % 256, p);
  }

  /** What the final borrow, saturation flag and low byte say about a 64-bit difference. */
  lemma ClampOf(brw: int, x: int, d: int, low: int, sat: bool)
    requires Subtracting(0x1_0000_0000_0000_0000, brw, x, d, low, sat)
    ensures var r := brw * 256 + if sat then 0x80 else low;
            r == Clamp(d) <==> -0xffff_ffff_ffff_ff81 < d < 0xffff_ffff_ffff_ff81
  {
  }

  /** The difference of the lowest bytes modulo 256. */
  function LowByte(v1: Seq64, v2: Seq64): int { (v1[7] as int - v2[7]) % 256 }

  /** The borrow after the `k` lowest bytes. */
  function Borrow(v1: Seq64, v2: Seq64, k: nat): int
    requires 1 <= k <= 8
  {
    if k == 1 then (v1[7] as int - v2[7]) / 256 else (Borrow(v1, v2, k - 1) + v1[8 - k] - v2[8 - k]) / 256
  }

  /** Whether a byte of the difference is not the sign of the lowest: the flag of the loop. */
  function Saturated(v1: Seq64, v2: Seq64, k: nat): bool
    requires 1 <= k <= 8
  {
    if k == 1 then false
    else
      var t := Borrow(v1, v2, k - 1) + v1[8 - k] - v2[8 - k];
      Saturated(v1, v2, k - 1) || if LowByte(v1, v2) >= 128 then (-1 - t) % 256 != 0 else t % 256 != 0
  }

  /** Borrow and flag describe the difference of the low parts. */
  lemma {:induction false} Subtracted(v1: Seq64, v2: Seq64, k: nat) returns (x: int)
    requires 1 <= k <= 8
    ensures Subtracting(Pow256(k), Borrow(v1, v2, k), x, Low(v1, k) - Low(v2, k), LowByte(v1, v2), Saturated(v1, v2, k))
  {
    if k == 1 {
      x := LowByte(v1, v2);
      FirstByte(v1, v2);
    } else {
      var y := Subtracted(v1, v2, k - 1);
      var p, d := Pow256(k - 1), Low(v1, k - 1) - Low(v2, k - 1);
      x := SubtractByte(p, Borrow(v1, v2, k - 1), y, d, LowByte(v1, v2), Saturated(v1, v2, k - 1), v1[8 - k], v2[8 - k]);
      NextLow(v1, v2, k);
    }
  }

  lemma FirstByte(v1: Seq64, v2: Seq64)
    ensures Pow256(1) == 256 && Low(v1, 1) - Low(v2, 1) == v1[7] as int - v2[7]
  {
    assert Pow256(0) == 1 && Low(v1, 0) == 0 && Low(v2, 0) == 0;
    assert v1[7] * 1 == v1[7] && v2[7] * 1 == v2[7];
  }

  lemma NextLow(v1: Seq64, v2: Seq64, k: nat)
    requires 1 < k <= 8
    ensures Pow256(k) == 256 * Pow256(k - 1)
    ensures Low(v1, k) - Low(v2, k) == v1[8 - k] * Pow256(k - 1) - v2[8 - k] * Pow256(k - 1) + (Low(v1, k - 1) - Low(v2, k - 1))
  {
  }

  /** What the bytewise subtraction returns. */
  function Difference(v1: Seq64, v2: Seq64): int {
    Borrow(v1, v2, 8) * 256 + if Saturated(v1, v2, 8) then 0x80 else LowByte(v1, v2)
  }

  lemma SubtractedAll(v1: Seq64, v2: Seq64)
    ensures var d := Value(v1) - Value(v2);
            Difference(v1, v2) == Clamp(d) <==> -0xffff_ffff_ffff_ff81 < d < 0xffff_ffff_ffff_ff81
  {
    var x := Subtracted(v1, v2, 8);
    Pow256Of8();
    ClampOf(Borrow(v1, v2, 8), x, Value(v1) - Value(v2), LowByte(v1, v2), Saturated(v1, v2, 8));
  }

  /** satsub64be (the portable path): the difference clamped to [-128, 128], except when the operands
      are so far apart that the difference modulo 2^64 is a small number of the other sign. `sat` stands
      for `(sat & 0xff) != 0`. */
  method Satsub64be(v1: Seq64, v2: Seq64) returns (r: int)
    ensures r == Difference(v1, v2)
    ensures var d := Value(v1) - Value(v2);
            r == Clamp(d) <==> -0xffff_ffff_ffff_ff81 < d < 0xffff_ffff_ffff_ff81
  {
    var ret: int := v1[7] as int - v2[7];
    var sat, brw := false, ret / 256;
    var i := 6;
    while i >= 0
      invariant -1 <= i <= 6
      invariant brw == Borrow(v1, v2, 7 - i) && sat == Saturated(v1, v2, 7 - i)
    {
      brw := brw + v1[i] - v2[i];
      if ret % 256 >= 128 {
        sat := sat || (-1 - brw) % 256 != 0;
      } else {
        sat := sat || brw % 256 != 0;
      }
      brw := brw / 256;
      i := i - 1;
    }
    SubtractedAll(v1, v2);
    brw := brw * 256;
    if sat {
      r := brw + 0x80;
    } else {
      r := brw + ret % 256;
    }
  }

  /** The largest number is farther below zero than any other: the answer is -255, not -128. */
  lemma FarthestApart()
    ensures var zero, most := [0, 0, 0, 0, 0, 0, 0, 0], [255, 255, 255, 255, 255, 255, 255, 255];
            Difference(zero, most) == -255 != Clamp(Value(zero) - Value(most))
  {
    var zero, most := [0, 0, 0, 0, 0, 0, 0, 0], [255, 255, 255, 255, 255, 255, 255, 255];
    assert Borrow(zero, most, 4) == -1 && !Saturated(zero, most, 4);
    assert Borrow(zero, most, 8) == -1 && !Saturated(zero, most, 8);
    assert LowByte(zero, most) == 1;
    assert -255 <= Difference(zero, most) <= -255;
  }

  // ---------- the window ----------

  const TWO_48 := 0x1_0000_0000_0000

  /** `map << shift` */
  function ShiftLeft(w: Word, shift: nat): Word {
    seq(64, i requires 0 <= i < 64 => shift <= i && w[i - shift])
  }

  /** A number passes when it is new and not below the window. */
  predicate Passes(accepted: set<nat>, max: nat, n: nat) {
    n !in accepted && max < n + 64
  }

  function Max(a: nat, b: nat): nat { if a >= b then a else b }

  class Window {
    var map_: Word
    var maxSeqNum: Seq64
    /** The numbers marked as received since the window was zeroed. */
    ghost var accepted: set<nat>

    /** Bit k stands for the number k below the maximum. */
    ghost predicate Valid()
      reads this
    {
      && Value(maxSeqNum) < TWO_48
      && (forall n :: n in accepted ==> n <= Value(maxSeqNum))
      && (Value(maxSeqNum) in accepted || (Value(maxSeqNum) == 0 && accepted == {}))
      && (forall k :: 0 <= k < 64 ==> map_[k] == (k <= Value(maxSeqNum) && Value(maxSeqNum) - k in accepted))
    }

    constructor ()
      ensures Valid() && accepted == {} && Value(maxSeqNum) == 0
    {
      map_ := seq(64, _ => false);
      maxSeqNum := [0, 0, 0, 0, 0, 0, 0, 0];
      accepted := {};
      new;
      ZeroLow(maxSeqNum, 8);
    }

    /** dtls1_record_replay_check */
    method ReplayCheck(number: Seq64) returns (ok: bool)
      requires Valid() && Value(number) < TWO_48
      ensures ok == Passes(accepted, Value(maxSeqNum), Value(number))
    {
      var cmp := Satsub64be(number, maxSeqNum);
      if cmp > 0 {
        return true;
      }
      var shift := -cmp;
      if shift >= 64 {
        return false;
      } else if map_[shift] {
        assert Value(maxSeqNum) - shift == Value(number);
        return false;
      }
      assert Value(maxSeqNum) - shift == Value(number);
      return true;
    }

    /** dtls1_record_bitmap_update */
    method BitmapUpdate(number: Seq64)
      requires Valid() && Value(number) < TWO_48
      modifies this
      ensures Valid()
      ensures accepted == if old(Value(maxSeqNum)) < Value(number) + 64 then old(accepted) + {Value(number)} else old(accepted)
      ensures Value(maxSeqNum) == Max(old(Value(maxSeqNum)), Value(number))
    {
      var cmp := Satsub64be(number, maxSeqNum);
      ghost var n, max := Value(number), Value(maxSeqNum);
      if cmp > 0 {
        var shift := cmp;
        if shift < 64 {
          assert n == max + shift;
          var shifted := ShiftLeft(map_, shift);
          map_ := shifted[0 := true];
        } else {
          assert n >= max + 64;
          map_ := seq(64, i => i == 0);
        }
        maxSeqNum := number;
      } else {
        var shift := -cmp;
        if shift < 64 {
          assert shift == max - n;
          map_ := map_[shift := true];
        }
      }
      accepted := if max < n + 64 then accepted + {n} else accepted;
    }

    /** The current-epoch path of dtls1_get_record for one record that arrived whole: `length` is its
        payload length and `opens` whether decryption and the MAC check succeed. */
    method GetRecord(number: Seq64, length: nat, opens: bool) returns (delivered: bool)
      requires Valid() && Value(number) < TWO_48
      modifies this
      ensures Valid()
      ensures delivered == (Passes(old(accepted), old(Value(maxSeqNum)), Value(number)) && length != 0 && opens)
      ensures delivered ==> accepted == old(accepted) + {Value(number)}
                            && Value(maxSeqNum) == Max(old(Value(maxSeqNum)), Value(number))
      ensures !delivered ==> accepted == old(accepted) && map_ == old(map_) && maxSeqNum == old(maxSeqNum)
    {
      var ok := ReplayCheck(number);
      if !ok {
        return false;
      }
      if length == 0 {
        return false;
      }
      if !opens {
        return false;
      }
      BitmapUpdate(number);
      return true;
    }
  }

  lemma {:induction false} ZeroLow(v: seq<byte>, k: nat)
    requires k <= |v| && forall i :: 0 <= i < |v| ==> v[i] == 0
    ensures Low(v, k) == 0
  {
    if k > 0 {
      ZeroLow(v, k - 1);
    }
  }

  // ---------- whole runs ----------

  datatype Arrival = Arrival(number: Seq64, length: nat, opens: bool)

  ghost function Genuine(a: Arrival): bool { a.length != 0 && a.opens }

  /** What a receiver that remembers every number would deliver. */
  ghost function Deliver(run: seq<Arrival>): (numbers: seq<nat>)
  {
    if run == [] then []
    else
      var before, a := Deliver(run[..|run| - 1]), run[|run| - 1];
      if Passes(Elements(before), Top(before), Value(a.number)) && Genuine(a) then before + [Value(a.number)] else before
  }

  ghost function Elements(s: seq<nat>): set<nat> { set n | n in s }

  /** The largest number delivered, or 0. */
  ghost function Top(s: seq<nat>): nat {
    if s == [] then 0 else Max(Top(s[..|s| - 1]), s[|s| - 1])
  }

  lemma DeliverNext(run: seq<Arrival>, i: nat)
    requires i < |run|
    ensures var before, n := Deliver(run[..i]), Value(run[i].number);
            Deliver(run[..i + 1]) == if Passes(Elements(before), Top(before), n) && Genuine(run[i]) then before + [n] else before
  {
    assert run[..i + 1][..i] == run[..i];
  }

  lemma Extend(s: seq<nat>, n: nat)
    ensures Top(s + [n]) == Max(Top(s), n)
    ensures Elements(s + [n]) == Elements(s) + {n}
  {
    assert (s + [n])[..|s|] == s;
  }

  /** From a zeroed window, every run of current-epoch records delivers what the remembering receiver delivers. */
  method Receive(run: seq<Arrival>) returns (delivered: seq<nat>)
    requires forall i :: 0 <= i < |run| ==> Value(run[i].number) < TWO_48
    ensures delivered == Deliver(run)
  {
    var w := new Window();
    delivered := [];
    for i := 0 to |run|
      invariant w.Valid() && fresh(w)
      invariant delivered == Deliver(run[..i])
      invariant w.accepted == Elements(delivered) && Value(w.maxSeqNum) == Top(delivered)
    {
      var a := run[i];
      DeliverNext(run, i);
      Extend(delivered, Value(a.number));
      var ok := w.GetRecord(a.number, a.length, a.opens);
      if ok {
        delivered := delivered + [Value(a.number)];
      }
    }
    assert run[..|run|] == run;
  }

  /** Each number was new and inside the window when it came. */
  ghost predicate Orderly(out: seq<nat>) {
    out != [] ==>
      var before, n := out[..|out| - 1], out[|out| - 1];
      Orderly(before) && n !in before && Top(before) < n + 64
  }

  lemma {:induction false} DeliveredOrderly(run: seq<Arrival>)
    ensures Orderly(Deliver(run))
  {
    if run != [] {
      var before, a := Deliver(run[..|run| - 1]), run[|run| - 1];
      DeliveredOrderly(run[..|run| - 1]);
      assert (before + [Value(a.number)])[..|before|] == before;
    }
  }

  /** No number is delivered twice. */
  lemma {:induction false} DeliveredOnce(out: seq<nat>)
    requires Orderly(out)
    ensures forall i, j :: 0 <= i < j < |out| ==> out[i] != out[j]
  {
    if out != [] {
      DeliveredOnce(out[..|out| - 1]);
    }
  }

  /** A genuine record is dropped only for a reason: its number was delivered before or lies below the window. */
  lemma DroppedForAReason(run: seq<Arrival>, a: Arrival)
    requires Genuine(a)
    ensures var out := Deliver(run);
            Deliver(run + [a]) == (if Value(a.number) in out || Value(a.number) + 64 <= Top(out) then out
                                   else out + [Value(a.number)])
  {
    assert (run + [a])[..|run|] == run;
  }
}
