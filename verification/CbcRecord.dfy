/** Checking of decrypted CBC records, ssl/s3_cbc.c: padding removal, MAC
    extraction and the record MAC, all without branches on secret data. Sections
    6.2.3.1 and 6.2.3.2 of RFC 5246. */
module CbcRecord {
  import opened ConstantTime

  // ---------- padding removal ----------

  /** All eight low bits of `good` are still set. */
  predicate LowBitsSet(good: bv32) { good & 0xff == 0xff }

  /** `good &= ~(mask & (a ^ b))` clears a low bit just when the mask is set and the bytes differ. */
  method CheckByte(good: bv32, mask: bv8, a: bv8, b: bv8) returns (r: bv32)
    requires mask == 0 || mask == 0xff
    ensures LowBitsSet(r) <==> LowBitsSet(good) && (mask == 0xff ==> a == b)
  {
    r := good & !((mask & (a ^ b)) as bv32);
  }

  /** The low eight bits folded into one, and that bit spread over the word. */
  method SpreadGood(good: bv32) returns (r: bv32)
    ensures r == if LowBitsSet(good) then 0xffff_ffff else 0
  {
    r := good;
    r := r & (r >> 4);
    r := r & (r >> 2);
    r := r & (r >> 1);
    r := r << 31;
    r := if r & 0x8000_0000 != 0 then 0xffff_ffff else 0;
  }

  /** A scanned byte is merged into its slot only inside the MAC. */
  method MergeByte(slot: bv8, b: bv8, started: bv8, ended: bv8) returns (r: bv8)
    requires started == 0 || started == 0xff
    requires ended == 0 || ended == 0xff
    ensures started == 0xff && ended == 0 && slot == 0 ==> r == b
    ensures started == 0 || ended == 0xff ==> r == slot
  {
    r := slot | (b & started & !ended);
  }

  /** The last p+1 of the first `len` bytes equal p, where p is the last of them, and leave room for a MAC. */
  ghost predicate GoodPadding(data: seq<bv8>, len: nat, macSize: nat)
    requires 1 <= len <= |data|
  {
    var p := data[len - 1] as int;
    && 1 + macSize + p <= len
    && forall k :: len - 1 - p <= k < len ==> data[k] == data[len - 1]
  }

  class Record {
    /** The buffer from the current data pointer on. */
    var data: seq<bv8>
    var input: seq<bv8>
    var length: nat
    var paddingLength: nat

    /** A decrypted record, nothing of it removed. */
    constructor (plain: seq<bv8>)
      ensures data == plain && input == plain && length == |plain| && paddingLength == 0
    {
      data, input, length, paddingLength := plain, plain, |plain|, 0;
    }

    /** ssl3_cbc_remove_padding */
    method RemovePadding(eivLen: nat, macSize: nat) returns (r: int)
      requires length <= |data| && eivLen <= |input|
      requires length < 0x8000_0000 && macSize < 0x1000_0000 && eivLen < 0x1000_0000
      modifies this
      ensures 1 + macSize + eivLen > old(length) ==>
                r == 0 && data == old(data) && input == old(input)
                && length == old(length) && paddingLength == old(paddingLength)
      ensures 1 + macSize + eivLen <= old(length) ==>
                var len := old(length) - eivLen;
                && data == old(data)[eivLen..] && input == old(input)[eivLen..] && 1 <= len <= |data|
                && r == (if GoodPadding(data, len, macSize) then 1 else -1)
                && paddingLength == (if GoodPadding(data, len, macSize) then data[len - 1] as int + 1 else 0)
                && length == len - paddingLength
                && macSize <= length
    {
      var overhead := 1 + macSize;
      if overhead + eivLen > length {
        return 0;
      }
      data, input, length := data[eivLen..], input[eivLen..], length - eivLen;
      var good, padding := CheckPadding(data, length, macSize);
      paddingLength := And32(padding as int + 1, if good == 0 then 0 else 0xffff_ffff);
      length := length - paddingLength;
      r := if (good & 1) | (!good & 0xffff_ffff) == 1 then 1 else -1;
    }
  }

  /** The constant-time scan: `good` is all ones for good padding and zero otherwise. */
  method CheckPadding(data: seq<bv8>, length: nat, macSize: nat) returns (good: bv32, padding: bv8)
    requires 1 + macSize <= length <= |data|
    requires length < 0x8000_0000 && macSize < 0x1000_0000
    ensures padding == data[length - 1]
    ensures good == if GoodPadding(data, length, macSize) then 0xffff_ffff else 0
  {
    var overhead := 1 + macSize;
    padding := data[length - 1];
    var p: uint32 := padding as int;
    good := if ConstantTimeGe(length, overhead + p) == 0 then 0 else 0xffff_ffff;
    var toCheck := 256;
    if toCheck > length {
      toCheck := length;
    }
    for i := 0 to toCheck
      invariant LowBitsSet(good) <==>
                overhead + p <= length && forall k :: length - i <= k < length && k >= length - 1 - p ==> data[k] == padding
    {
      var mask := DuplicateMsb8(ConstantTimeGe(p, i));
      var b := data[length - 1 - i];
      good := CheckByte(good, mask, padding, b);
    }
    good := SpreadGood(good);
  }

  // ---------- MAC extraction ----------

  lemma ModStep(x: nat, m: nat)
    requires m > 0
    ensures (x + 1) % m == if x % m + 1 < m then x % m + 1 else 0
  {
    var q, r := x / m, x % m;
    assert x == m * q + r;
    if r + 1 < m {
      ModUnique(x + 1, m, q, r + 1);
    } else {
      assert x + 1 == m * (q + 1) by { assert m * (q + 1) == m * q + m; }
      ModUnique(x + 1, m, q + 1, 0);
    }
  }

  lemma ModUnique(n: nat, m: nat, q: nat, r: nat)
    requires m > 0 && r < m && n == m * q + r
    ensures n % m == r
  {
    var d := q - n / m;
    assert m * q - m * (n / m) == m * d;
    MultipleApart(m, d);
  }

  lemma MultipleApart(m: nat, d: int)
    ensures d >= 1 ==> m * d >= m
    ensures d <= -1 ==> m * d + m <= 0
  {
  }

  /** The spoiler is a multiple of an even size, so it does not change the remainder. */
  lemma SpoilerIsMultiple(mdSize: nat, x: nat)
    requires mdSize > 0 && mdSize % 2 == 0
    ensures (mdSize / 2 * 0x100_0000 + x) % mdSize == x % mdSize
  {
    var q, r := x / mdSize, x % mdSize;
    assert x == mdSize * q + r;
    assert mdSize / 2 * 0x100_0000 == mdSize * 0x80_0000;
    assert mdSize * (0x80_0000 + q) == mdSize * 0x80_0000 + mdSize * q;
    ModUnique(mdSize / 2 * 0x100_0000 + x, mdSize, 0x80_0000 + q, r);
  }

  /** A counter stepped `n` times that wraps to zero at `m`. */
  function Cycle(n: nat, m: nat): (c: nat)
    requires m > 0
    ensures c < m
  {
    if n == 0 then 0 else if Cycle(n - 1, m) + 1 < m then Cycle(n - 1, m) + 1 else 0
  }

  lemma {:induction false} CycleIsMod(n: nat, m: nat)
    requires m > 0
    ensures Cycle(n, m) == n % m
  {
    if n == 0 {
      ModUnique(0, m, 0, 0);
    } else {
      CycleIsMod(n - 1, m);
      ModStep(n - 1, m);
    }
  }

  /** Which MAC byte ends in slot `s` when the first one lands in slot `rot`. */
  function MacIndex(s: nat, rot: nat, mdSize: nat): int {
    if s >= rot then s - rot else s - rot + mdSize
  }

  /** ssl3_cbc_copy_mac: the MAC bytes are collected cyclically from a public start and rotated afterwards. */
  method CopyMac(data: seq<bv8>, length: nat, mdSize: nat, origLen: nat) returns (out: seq<bv8>)
    requires 0 < mdSize <= 64 && mdSize % 2 == 0
    requires mdSize <= length <= origLen <= |data| && origLen <= length + 256
    requires origLen < 0x1000_0000
    ensures out == data[length - mdSize..length]
  {
    var macEnd := length;
    var macStart := macEnd - mdSize;
    var scanStart := 0;
    if origLen > mdSize + 255 + 1 {
      scanStart := origLen - (mdSize + 255 + 1);
    }
    var spoiler := mdSize / 2 * 0x100_0000;
    var rotateOffset := (spoiler + macStart - scanStart) % mdSize;
    SpoilerIsMultiple(mdSize, macStart - scanStart);
    CycleIsMod(macStart - scanStart, mdSize);
    ghost var rot := rotateOffset;

    var rotated := CollectMac(data, macStart, mdSize, scanStart, origLen, rot);
    out := [];
    for i := 0 to mdSize
      invariant 0 <= rotateOffset < mdSize && (i < mdSize ==> MacIndex(rotateOffset, rot, mdSize) == i)
      invariant out == data[macStart..macStart + i]
    {
      out := out + [rotated[rotateOffset]];
      rotateOffset := rotateOffset + 1;
      rotateOffset := And32(rotateOffset, ConstantTimeLt(rotateOffset, mdSize));
    }
  }

  /** The scan of ssl3_cbc_copy_mac: MAC byte t lands in slot (rot + t) mod mdSize. */
  method CollectMac(data: seq<bv8>, macStart: nat, mdSize: nat, scanStart: nat, origLen: nat, ghost rot: nat)
    returns (rotated: array<bv8>)
    requires 0 < mdSize && scanStart <= macStart && macStart + mdSize <= origLen <= |data|
    requires origLen < 0x1000_0000
    requires rot == Cycle(macStart - scanStart, mdSize)
    ensures rotated.Length == mdSize
    ensures forall s :: 0 <= s < mdSize ==> rotated[s] == data[macStart + MacIndex(s, rot, mdSize)]
  {
    var macEnd := macStart + mdSize;
    rotated := new bv8[mdSize];
    forall i | 0 <= i < mdSize { rotated[i] := 0; }
    var i, j := scanStart, 0;
    while i < origLen
      invariant scanStart <= i <= origLen && 0 <= j < mdSize
      invariant i <= macStart ==> j == Cycle(i - scanStart, mdSize)
      invariant macStart <= i < macEnd ==> MacIndex(j, rot, mdSize) == i - macStart
      invariant forall s :: 0 <= s < mdSize ==>
                  rotated[s] == if macStart + MacIndex(s, rot, mdSize) < i then data[macStart + MacIndex(s, rot, mdSize)] else 0
    {
      var started := DuplicateMsb8(ConstantTimeGe(i, macStart));
      var ended := DuplicateMsb8(ConstantTimeGe(i, macEnd));
      var b := data[i];
      rotated[j] := MergeByte(rotated[j], b, started, ended);
      j := j + 1;
      j := And32(j, ConstantTimeLt(j, mdSize));
      i := i + 1;
    }
  }
}
