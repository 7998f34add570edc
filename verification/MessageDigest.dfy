/** The streaming hash collector of crypto/md32_common.h: bytes arrive in
    chunks of any size, whole blocks are compressed at once and the rest waits
    in a 64-byte buffer. HASH_LONG is 32 bits wide. */
module MessageDigest {
  import opened ConstantTime
  import opened Hashing

  type size_t = x: int | 0 <= x < 0x1_0000_0000_0000_0000

  /** The four bytes HOST_l2c writes, big-endian variant. */
  function HostBig(l: uint32): seq<bv8> {
    [(l / 0x100_0000 % 256) as bv8, (l / 0x1_0000 % 256) as bv8, (l / 0x100 % 256) as bv8, (l % 256) as bv8]
  }

  /** The four bytes HOST_l2c writes, little-endian variant. */
  function HostLittle(l: uint32): seq<bv8> {
    [(l % 256) as bv8, (l / 0x100 % 256) as bv8, (l / 0x1_0000 % 256) as bv8, (l / 0x100_0000 % 256) as bv8]
  }

  /** A 32-bit word is the number its four bytes spell. */
  lemma BytesOf(l: uint32)
    ensures l == 0x100_0000 * (l / 0x100_0000 % 256) + 0x1_0000 * (l / 0x1_0000 % 256) + 0x100 * (l / 0x100 % 256) + l % 256
  {
    var a := l / 0x100;
    var b := l / 0x1_0000;
    assert a / 256 == b;
    assert b / 256 == l / 0x100_0000;
  }

  lemma JoinPairs(a: seq<bv8>, b: seq<bv8>, c: seq<bv8>)
    ensures a + (b + c) == (a + b) + c
  {
  }

  lemma BigEndianStep(n: nat, a: nat, r: nat, width: nat)
    requires n == 256 * a + r && r < 256
    ensures BigEndian(n, width + 1) == BigEndian(a, width) + [r as bv8]
  {
    assert n / 256 == a && n % 256 == r;
  }

  lemma LittleEndianStep(n: nat, a: nat, r: nat, width: nat)
    requires n == 256 * a + r && r < 256
    ensures LittleEndian(n, width + 1) == [r as bv8] + LittleEndian(a, width)
  {
    assert n / 256 == a && n % 256 == r;
  }

  /** The last four bytes of a big-endian number. */
  lemma BigEndianWord(n: nat, high: nat, l: uint32, width: nat)
    requires n == 0x1_0000_0000 * high + l
    ensures BigEndian(n, width + 4) == BigEndian(high, width) + HostBig(l)
  {
    BytesOf(l);
    var b3, b2, b1, b0 := l / 0x100_0000 % 256, l / 0x1_0000 % 256, l / 0x100 % 256, l % 256;
    BigEndianFour(n, high, b3, b2, b1, b0, width);
  }

  lemma BigEndianPair(n: nat, a: nat, r1: nat, r0: nat, width: nat)
    requires r1 < 256 && r0 < 256 && n == 0x1_0000 * a + 256 * r1 + r0
    ensures BigEndian(n, width + 2) == BigEndian(a, width) + [r1 as bv8, r0 as bv8]
  {
    BigEndianStep(256 * a + r1, a, r1, width);
    BigEndianStep(n, 256 * a + r1, r0, width + 1);
  }

  lemma BigEndianFour(n: nat, high: nat, b3: nat, b2: nat, b1: nat, b0: nat, width: nat)
    requires b3 < 256 && b2 < 256 && b1 < 256 && b0 < 256
    requires n == 0x1_0000_0000 * high + 0x100_0000 * b3 + 0x1_0000 * b2 + 0x100 * b1 + b0
    ensures BigEndian(n, width + 4) == BigEndian(high, width) + [b3 as bv8, b2 as bv8, b1 as bv8, b0 as bv8]
  {
    var mid := 0x1_0000 * high + 256 * b3 + b2;
    BigEndianPair(mid, high, b3, b2, width);
    BigEndianPair(n, mid, b1, b0, width + 2);
    JoinPairs(BigEndian(high, width), [b3 as bv8, b2 as bv8], [b1 as bv8, b0 as bv8]);
  }

  /** The first four bytes of a little-endian number. */
  lemma LittleEndianWord(n: nat, high: nat, l: uint32, width: nat)
    requires n == 0x1_0000_0000 * high + l
    ensures LittleEndian(n, width + 4) == HostLittle(l) + LittleEndian(high, width)
  {
    BytesOf(l);
    var b3, b2, b1, b0 := l / 0x100_0000 % 256, l / 0x1_0000 % 256, l / 0x100 % 256, l % 256;
    LittleEndianFour(n, high, b3, b2, b1, b0, width);
  }

  lemma LittleEndianPair(n: nat, a: nat, r1: nat, r0: nat, width: nat)
    requires r1 < 256 && r0 < 256 && n == 0x1_0000 * a + 256 * r1 + r0
    ensures LittleEndian(n, width + 2) == [r0 as bv8, r1 as bv8] + LittleEndian(a, width)
  {
    LittleEndianStep(256 * a + r1, a, r1, width);
    LittleEndianStep(n, 256 * a + r1, r0, width + 1);
  }

  lemma LittleEndianFour(n: nat, high: nat, b3: nat, b2: nat, b1: nat, b0: nat, width: nat)
    requires b3 < 256 && b2 < 256 && b1 < 256 && b0 < 256
    requires n == 0x1_0000_0000 * high + 0x100_0000 * b3 + 0x1_0000 * b2 + 0x100 * b1 + b0
    ensures LittleEndian(n, width + 4) == [b0 as bv8, b1 as bv8, b2 as bv8, b3 as bv8] + LittleEndian(high, width)
  {
    var mid := 0x1_0000 * high + 256 * b3 + b2;
    LittleEndianPair(mid, high, b3, b2, width);
    LittleEndianPair(n, mid, b1, b0, width + 2);
    JoinPairs([b0 as bv8, b1 as bv8], [b2 as bv8, b3 as bv8], LittleEndian(high, width));
  }

  /** Nh:Nl equals the bit count after `wraps` wrap-arounds at 2^64. */
  ghost predicate Counts(nh: uint32, nl: uint32, wraps: nat, bits: nat) {
    bits == 0x1_0000_0000_0000_0000 * wraps + 0x1_0000_0000 * nh + nl
  }

  /** A counter pair that holds the bit count modulo 2^64 is the length field. */
  lemma CounterIsLengthField<S>(h: Hash<S>, bits: nat, nh: uint32, nl: uint32, wraps: nat)
    requires !h.wide && Counts(nh, nl, wraps, bits)
    ensures LengthField(h, bits) == if h.bigEndian then HostBig(nh) + HostBig(nl) else HostLittle(nl) + HostLittle(nh)
  {
    var high := 0x1_0000_0000 * wraps + nh;
    if h.bigEndian {
      BigEndianWord(bits, high, nl, 4);
      BigEndianWord(high, wraps, nh, 0);
    } else {
      LittleEndianWord(bits, high, nl, 4);
      LittleEndianWord(high, wraps, nh, 0);
    }
  }

  /** The new low word, the carry out of it and the wrapped high word, as HASH_UPDATE computes them. */
  function LowWord(nl: uint32, len: size_t): uint32 {
    (nl + len % 0x1_0000_0000 * 8 % 0x1_0000_0000) % 0x1_0000_0000
  }

  function HighWord(nh: uint32, carry: bool, len: size_t): uint32 {
    ((if carry then nh + 1 else nh) + len / 0x2000_0000 % 0x1_0000_0000) % 0x1_0000_0000
  }

  lemma LowWordCarry(nl: uint32, len: size_t)
    ensures nl + len % 0x2000_0000 * 8 == (if LowWord(nl, len) < nl then 0x1_0000_0000 else 0) + LowWord(nl, len)
  {
    assert len % 0x1_0000_0000 * 8 % 0x1_0000_0000 == len % 0x2000_0000 * 8;
  }

  lemma CounterSum(nl: int, nh: int, wraps: int, total: int, len: int, l: int, lo: int,
                   carry: int, hi: int, hq: int, hr: int, sq: int, sr: int)
    requires 8 * total == 0x1_0000_0000_0000_0000 * wraps + 0x1_0000_0000 * nh + nl
    requires len == 0x2000_0000 * hi + lo && hi == 0x1_0000_0000 * hq + hr
    requires nl + lo * 8 == 0x1_0000_0000 * carry + l
    requires nh + carry + hr == 0x1_0000_0000 * sq + sr
    ensures 8 * (total + len) == 0x1_0000_0000_0000_0000 * (wraps + hq + sq) + 0x1_0000_0000 * sr + l
  {
  }

  /** The overflow handling of HASH_UPDATE keeps Nh:Nl equal to the bit count. */
  lemma CounterStep(nl: uint32, nh: uint32, wraps: nat, total: nat, len: size_t) returns (wraps': nat)
    requires Counts(nh, nl, wraps, 8 * total)
    ensures Counts(HighWord(nh, LowWord(nl, len) < nl, len), LowWord(nl, len), wraps', 8 * (total + len))
  {
    LowWordCarry(nl, len);
    var l, hi := LowWord(nl, len), len / 0x2000_0000;
    var carry := if l < nl then 1 else 0;
    var hq, hr := hi / 0x1_0000_0000, hi % 0x1_0000_0000;
    var sum := nh + carry + hr;
    var sq, sr := sum / 0x1_0000_0000, sum % 0x1_0000_0000;
    CounterSum(nl, nh, wraps, total, len, l, len % 0x2000_0000, carry, hi, hq, hr, sq, sr);
    wraps' := wraps + hq + sq;
  }

  /** `state` has absorbed exactly the first `done` bytes of `msg`. */
  ghost predicate Absorbed<S>(h: Hash<S>, state: S, msg: seq<bv8>, done: nat) {
    && !h.wide && done % 64 == 0 && done <= |msg|
    && state == Fold(h, h.init, msg, done / 64)
  }

  lemma AbsorbedLonger<S>(h: Hash<S>, state: S, msg: seq<bv8>, longer: seq<bv8>, done: nat)
    requires Absorbed(h, state, msg, done) && msg <= longer
    ensures Absorbed(h, state, longer, done)
  {
    FoldPrefix(h, h.init, msg, longer, done / 64);
  }

  lemma AbsorbBlocks<S>(h: Hash<S>, state: S, msg: seq<bv8>, done: nat, n: nat)
    requires Absorbed(h, state, msg, done) && done + n * 64 <= |msg|
    ensures Absorbed(h, Fold(h, state, msg[done..done + n * 64], n), msg, done + n * 64)
  {
    var a, b := msg[..done], msg[done..done + n * 64];
    FoldAppend(h, h.init, a, done / 64, b, n);
    FoldPrefix(h, h.init, a, msg, done / 64);
    assert a + b == msg[..done + n * 64];
    FoldPrefix(h, h.init, a + b, msg, done / 64 + n);
  }

  lemma AbsorbBlock<S>(h: Hash<S>, state: S, msg: seq<bv8>, done: nat)
    requires Absorbed(h, state, msg, done) && done + 64 <= |msg|
    ensures Absorbed(h, h.transform(state, msg[done..done + 64]), msg, done + 64)
  {
  }

  lemma AbsorbLast<S>(h: Hash<S>, state: S, msg: seq<bv8>, blocks: nat)
    requires blocks >= 1 && 64 * blocks <= |msg| && Absorbed(h, state, msg, 64 * (blocks - 1))
    ensures h.transform(state, msg[64 * (blocks - 1)..64 * (blocks - 1) + 64]) == Fold(h, h.init, msg, blocks)
  {
    assert 64 * (blocks - 1) / 64 == blocks - 1;
  }

  lemma ZeroEnd(padded: seq<bv8>, done: nat, n: nat)
    requires n <= 64 && done + 64 <= |padded| && forall i :: done + n <= i < done + 64 ==> padded[i] == 0
    ensures padded[done..done + 64] == padded[done..done + n] + Zeros(64 - n)
  {
  }

  lemma TailGrows(msg: seq<bv8>, tail: seq<bv8>, input: seq<bv8>)
    requires |tail| <= |msg| && tail == msg[|msg| - |tail|..]
    ensures tail + input == (msg + input)[|msg| - |tail|..]
  {
  }

  /** memcpy to the start of the buffer. */
  method CopyIn(buf: array<bv8>, bytes: seq<bv8>)
    requires |bytes| <= buf.Length
    modifies buf
    ensures buf[..|bytes|] == bytes
    ensures forall i :: |bytes| <= i < buf.Length ==> buf[i] == old(buf[i])
  {
    forall i | 0 <= i < |bytes| { buf[i] := bytes[i]; }
  }

  /** memcpy behind the first `n` bytes of the buffer. */
  method CopyBehind(buf: array<bv8>, n: nat, bytes: seq<bv8>)
    requires n + |bytes| <= buf.Length
    modifies buf
    ensures buf[..n + |bytes|] == old(buf[..n]) + bytes
    ensures forall i :: n + |bytes| <= i < buf.Length ==> buf[i] == old(buf[i])
  {
    forall i | n <= i < n + |bytes| { buf[i] := bytes[i - n]; }
  }

  /** The zeros and the length field at the end of the last block. */
  method WriteEnd(buf: array<bv8>, n: nat, field: seq<bv8>)
    requires buf.Length == 64 && n <= 56 && |field| == 8
    modifies buf
    ensures buf[..] == old(buf[..n]) + Zeros(56 - n) + field
  {
    forall i | n <= i < 64 - 8 { buf[i] := 0; }
    forall i | 56 <= i < 64 { buf[i] := field[i - 56]; }
  }

  class HashContext<S(!new)> {
    const h: Hash<S>
    const data: array<bv8>
    var state: S
    var nl: uint32
    var nh: uint32
    var num: nat
    /** Every byte taken since initialisation. */
    ghost var msg: seq<bv8>
    /** How often the bit counter has wrapped around. */
    ghost var wraps: nat

    /** The buffer holds the bytes not yet compressed and is zero behind them. */
    ghost predicate Buffered()
      reads this`num, this`msg, this`state, data
    {
      && data.Length == 64
      && num < 64 && num <= |msg|
      && data[..num] == msg[|msg| - num..]
      && (forall i :: num <= i < 64 ==> data[i] == 0)
      && Absorbed(h, state, msg, |msg| - num)
    }

    /** Nh:Nl is the number of bits taken, modulo 2^64. */
    ghost predicate Counted()
      reads this`nh, this`nl, this`msg, this`wraps
    {
      Counts(nh, nl, wraps, 8 * |msg|)
    }

    ghost predicate Valid()
      reads this, data
    {
      Buffered() && Counted()
    }

    constructor (h: Hash<S>)
      requires !h.wide
      ensures Valid() && fresh(data) && this.h == h && msg == []
    {
      this.h := h;
      data := new bv8[64];
      state := h.init;
      nl, nh, num := 0, 0, 0;
      msg, wraps := [], 0;
      new;
      forall i | 0 <= i < 64 { data[i] := 0; }
    }

    /** HASH_UPDATE */
    method Update(input: seq<bv8>)
      requires Valid()
      requires |input| < 0x1_0000_0000_0000_0000
      modifies this, data
      ensures Valid() && msg == old(msg) + input
    {
      if |input| == 0 {
        assert msg + input == msg;
        return;
      }
      wraps := CounterStep(nl, nh, wraps, |msg|, |input|);
      var l := LowWord(nl, |input|);
      nh := HighWord(nh, l < nl, |input|);
      nl := l;
      Take(input);
    }

    /** The part of HASH_UPDATE that moves bytes. */
    method Take(input: seq<bv8>)
      requires Buffered() && input != []
      modifies this`num, this`state, this`msg, data
      ensures Buffered() && msg == old(msg) + input
    {
      ghost var whole := msg + input;
      AbsorbedLonger(h, state, msg, whole, |msg| - num);
      var rest := input;
      if num != 0 {
        if |input| >= 64 || |input| + num >= 64 {
          rest := CompleteBlock(whole, input);
        } else {
          Append(input);
          return;
        }
      }
      TakeAligned(whole, rest);
    }

    /** Input that still fits the buffer is only stored. */
    method Append(input: seq<bv8>)
      requires Buffered() && |input| + num < 64
      modifies this`num, this`msg, data
      ensures Buffered() && msg == old(msg) + input
    {
      ghost var whole, tail := msg + input, data[..num];
      AbsorbedLonger(h, state, msg, whole, |msg| - num);
      TailGrows(msg, tail, input);
      CopyBehind(data, num, input);
      num := num + |input|;
      msg := whole;
    }

    /** Fills the buffer from the input, compresses it and keeps it zeroed. */
    method CompleteBlock(ghost whole: seq<bv8>, input: seq<bv8>) returns (rest: seq<bv8>)
      requires Buffered() && whole == msg + input && |input| + num >= 64
      requires Absorbed(h, state, whole, |msg| - num)
      modifies this`num, this`state, data
      ensures num == 0 && forall i :: 0 <= i < 64 ==> data[i] == 0
      ensures |rest| <= |whole| && whole[|whole| - |rest|..] == rest
      ensures Absorbed(h, state, whole, |whole| - |rest|)
    {
      var n := num;
      ghost var done, tail := |msg| - n, data[..n];
      forall i | n <= i < 64 { data[i] := input[i - n]; }
      assert data[..] == tail + input[..64 - n] == whole[done..done + 64];
      AbsorbBlock(h, state, whole, done);
      state := h.transform(state, data[..]);
      rest := input[64 - n..];
      num := 0;
      forall i | 0 <= i < 64 { data[i] := 0; }
    }

    /** The block-aligned tail of HASH_UPDATE: whole blocks straight from the input, the rest buffered. */
    method TakeAligned(ghost whole: seq<bv8>, input: seq<bv8>)
      requires data.Length == 64 && num == 0 && forall i :: 0 <= i < 64 ==> data[i] == 0
      requires |input| <= |whole| && whole[|whole| - |input|..] == input
      requires Absorbed(h, state, whole, |whole| - |input|)
      modifies this`num, this`state, this`msg, data
      ensures Buffered() && msg == whole
    {
      var rest := input;
      ghost var done := |whole| - |input|;
      var n := |rest| / 64;
      if n > 0 {
        AbsorbBlocks(h, state, whole, done, n);
        assert whole[done..done + n * 64] == rest[..n * 64];
        done := done + n * 64;
        state := Fold(h, state, rest[..n * 64], n);
        rest := rest[n * 64..];
      }
      assert |rest| < 64 && done == |whole| - |rest| && whole[done..] == rest;
      KeepRest(whole, rest);
    }

    /** What does not fill a block stays in the buffer. */
    method KeepRest(ghost whole: seq<bv8>, rest: seq<bv8>)
      requires data.Length == 64 && num == 0 && forall i :: 0 <= i < 64 ==> data[i] == 0
      requires |rest| < 64 && |rest| <= |whole| && whole[|whole| - |rest|..] == rest
      requires Absorbed(h, state, whole, |whole| - |rest|)
      modifies this`num, this`msg, data
      ensures Buffered() && msg == whole
    {
      ghost var done := |whole| - |rest|;
      if |rest| != 0 {
        num := |rest|;
        CopyIn(data, rest);
      }
      msg := whole;
      assert |whole| - num == done && whole[done..] == rest;
      assert Absorbed(h, state, whole, done);
    }

    /** HASH_FINAL: the buffered tail, 0x80, zeros and the counters form the last one or two blocks. */
    method Final() returns (md: seq<bv8>)
      requires Valid()
      requires forall s: S :: |h.finalRaw(s)| >= h.mdSize
      modifies this, data
      ensures md == Digest(h, old(msg))
    {
      CounterIsLengthField(h, 8 * |msg|, nh, nl, wraps);
      PadHasPaddedForm(h, msg);
      var field := if h.bigEndian then HostBig(nh) + HostBig(nl) else HostLittle(nl) + HostLittle(nh);
      Flush(field, Pad(h, msg), PaddedBlocks(h, |msg|));
      md := h.finalRaw(state)[..h.mdSize];
    }

    /** The part of HASH_FINAL that pads and compresses. */
    method Flush(field: seq<bv8>, ghost padded: seq<bv8>, ghost blocks: nat)
      requires Buffered() && PaddedForm(padded, blocks, msg, field)
      modifies this`num, this`state, data
      ensures state == Fold(h, h.init, padded, blocks)
    {
      var n := MarkEnd(field, padded, blocks);
      ghost var head := data[..n];
      LastBlock(padded, blocks, msg, field, head);
      WriteEnd(data, n, field);
      CompressLast(padded, blocks);
      Clear();
    }

    /** The last block, complete with the length. */
    method CompressLast(ghost padded: seq<bv8>, ghost blocks: nat)
      requires data.Length == 64 && blocks >= 1 && |padded| == 64 * blocks && Absorbed(h, state, padded, 64 * (blocks - 1))
      requires data[..] == padded[64 * (blocks - 1)..64 * (blocks - 1) + 64]
      modifies this`state
      ensures state == Fold(h, h.init, padded, blocks)
    {
      AbsorbLast(h, state, padded, blocks);
      state := h.transform(state, data[..]);
    }

    /** The buffer is wiped after its last use. */
    method Clear()
      requires data.Length == 64
      modifies this`num, data
      ensures num == 0 && forall i :: 0 <= i < 64 ==> data[i] == 0
    {
      num := 0;
      forall i | 0 <= i < 64 { data[i] := 0; }
    }

    /** Writes the 0x80 byte, and compresses the buffer when the length field no longer fits behind it. */
    method MarkEnd(ghost field: seq<bv8>, ghost padded: seq<bv8>, ghost blocks: nat) returns (n: nat)
      requires Buffered() && PaddedForm(padded, blocks, msg, field)
      modifies this`state, data
      ensures blocks >= 1 && n <= 56 && |msg| < 64 * (blocks - 1) + n
      ensures Absorbed(h, state, padded, 64 * (blocks - 1))
      ensures data[..n] == padded[64 * (blocks - 1)..64 * (blocks - 1) + n]
    {
      ghost var done := |msg| - num;
      AbsorbedLonger(h, state, msg, padded, done);
      EndBlocks(padded, blocks, msg, field, done);
      n := num;
      data[n] := 0x80;
      n := n + 1;
      assert data[..n] == padded[done..done + n];
      if n > 64 - 8 {
        CompressEnd(n, padded, done);
        n := 0;
      }
    }

    /** The rest of a block that ends before the length field. */
    method CompressEnd(n: nat, ghost padded: seq<bv8>, ghost done: nat)
      requires data.Length == 64 && n <= 64 && done + 64 <= |padded| && Absorbed(h, state, padded, done)
      requires data[..n] == padded[done..done + n] && forall i :: done + n <= i < done + 64 ==> padded[i] == 0
      modifies this`state, data
      ensures Absorbed(h, state, padded, done + 64)
    {
      ghost var head := data[..n];
      forall i | n <= i < 64 { data[i] := 0; }
      assert data[..] == head + Zeros(64 - n);
      ZeroEnd(padded, done, n);
      AbsorbBlock(h, state, padded, done);
      state := h.transform(state, data[..]);
    }
  }

  /** What makes `p`, of `blocks` blocks, the padded form of `msg` with the given length field. */
  ghost predicate PaddedForm(p: seq<bv8>, blocks: nat, msg: seq<bv8>, field: seq<bv8>) {
    && |field| == 8 && |p| == 64 * blocks
    && |msg| + 9 <= |p| < |msg| + 73
    && msg <= p && p[|msg|] == 0x80
    && (forall i :: |msg| < i < |p| - 8 ==> p[i] == 0)
    && p[|p| - 8..] == field
  }

  /** How many blocks there are from the one that holds the end of the message on. */
  lemma EndBlocks(p: seq<bv8>, blocks: nat, msg: seq<bv8>, field: seq<bv8>, done: nat)
    requires PaddedForm(p, blocks, msg, field) && done <= |msg| < done + 64 && done % 64 == 0
    ensures blocks >= 1 && done == 64 * (blocks - if |msg| - done + 1 > 56 then 2 else 1)
  {
    assert done == 64 * (done / 64);
  }

  lemma LastBlock(p: seq<bv8>, blocks: nat, msg: seq<bv8>, field: seq<bv8>, head: seq<bv8>)
    requires PaddedForm(p, blocks, msg, field)
    requires blocks >= 1 && |head| <= 56 && |msg| < 64 * (blocks - 1) + |head|
    requires head == p[64 * (blocks - 1)..64 * (blocks - 1) + |head|]
    ensures p[64 * (blocks - 1)..64 * (blocks - 1) + 64] == head + Zeros(56 - |head|) + field
  {
    var done := 64 * (blocks - 1);
    assert p[done..done + 56] == head + Zeros(56 - |head|);
    assert p[done..done + 64] == p[done..done + 56] + p[|p| - 8..];
  }

  lemma PadHasPaddedForm<S>(h: Hash<S>, msg: seq<bv8>)
    requires !h.wide
    ensures PaddedForm(Pad(h, msg), PaddedBlocks(h, |msg|), msg, LengthField(h, 8 * |msg|))
  {
  }

  /** All chunks in order. */
  function Concat(chunks: seq<seq<bv8>>): seq<bv8> {
    if chunks == [] then [] else Concat(chunks[..|chunks| - 1]) + chunks[|chunks| - 1]
  }

  /** However a message is cut into update calls, the digest is that of the whole message. */
  method DigestChunks<S(!new)>(h: Hash<S>, chunks: seq<seq<bv8>>) returns (md: seq<bv8>)
    requires !h.wide
    requires forall s: S :: |h.finalRaw(s)| >= h.mdSize
    requires forall i :: 0 <= i < |chunks| ==> |chunks[i]| < 0x1_0000_0000_0000_0000
    ensures md == Digest(h, Concat(chunks))
  {
    var c := new HashContext(h);
    for i := 0 to |chunks|
      invariant c.Valid() && fresh(c) && fresh(c.data) && c.h == h && c.msg == Concat(chunks[..i])
    {
      c.Update(chunks[i]);
      assert chunks[..i + 1][..i] == chunks[..i];
    }
    assert chunks[..|chunks|] == chunks;
    md := c.Final();
  }
}
