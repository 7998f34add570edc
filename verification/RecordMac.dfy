/** ssl3_cbc_digest_record of ssl/s3_cbc.c: the MAC of a decrypted record whose
    true length is secret. The last blocks of the inner hash are built byte by
    byte from masks, and the digest state after each is copied out under a mask. */
module RecordMac {
  import opened ConstantTime
  import opened Hashing
  import MessageDigest

  // ---------- the schedule ----------

  /** Number of blocks hashed before the constant-time part. */
  function StartingBlocks<S>(h: Hash<S>, total: nat): (n: nat)
    requires total >= h.mdSize
  {
    var maxMacBytes := total + 13 - h.mdSize - 1;
    var numBlocks := h.BlockOf(maxMacBytes + 1 + h.LengthSize() + h.BlockSize() - 1);
    if numBlocks > 6 then numBlocks - 6 else 0
  }

  /** However much of the padding is real, the block with the 0x80 byte and the block with the length
      are both among the seven built in constant time. */
  lemma VarianceBlocksSuffice<S>(h: Hash<S>, dataPlusMac: nat, total: nat)
    requires h.mdSize <= dataPlusMac <= total <= dataPlusMac + 256
    ensures var end := dataPlusMac + 13 - h.mdSize;
            && StartingBlocks(h, total) <= h.BlockOf(end)
            && h.BlockOf(end) <= h.BlockOf(end + h.LengthSize()) <= h.BlockOf(end) + 1
            && h.BlockOf(end + h.LengthSize()) <= StartingBlocks(h, total) + 6
  {
  }

  // ---------- what the blocks must hold ----------

  /** `p` is `msg`, 0x80, zeros and `field`, filling `blocks` whole blocks. */
  ghost predicate TailForm<S>(h: Hash<S>, p: seq<bv8>, msg: seq<bv8>, field: seq<bv8>) {
    && |field| == h.LengthSize() && |p| == h.Offset(h.BlockOf(|msg| + h.LengthSize()) + 1)
    && |msg| + 1 + h.LengthSize() <= |p|
    && msg <= p && p[|msg|] == 0x80
    && (forall i :: |msg| < i < |p| - h.LengthSize() ==> p[i] == 0)
    && p[|p| - h.LengthSize()..] == field
  }

  lemma PaddedBlocksOf<S>(h: Hash<S>, len: nat)
    ensures PaddedBlocks(h, h.BlockSize() + len) == h.BlockOf(len + h.LengthSize()) + 2
    ensures h.Offset(PaddedBlocks(h, h.BlockSize() + len)) == h.BlockSize() + h.Offset(h.BlockOf(len + h.LengthSize()) + 1)
  {
  }

  /** The padded inner message of HMAC is the key block followed by such a tail. */
  lemma InnerTail<S>(h: Hash<S>, pad: seq<bv8>, msg: seq<bv8>) returns (tail: seq<bv8>)
    requires |pad| == h.BlockSize()
    ensures Pad(h, pad + msg) == pad + tail
    ensures TailForm(h, tail, msg, LengthField(h, 8 * (h.BlockSize() + |msg|)))
  {
    var padded := Pad(h, pad + msg);
    tail := padded[h.BlockSize()..];
    var field := LengthField(h, 8 * |pad + msg|);
    var zeros := Zeros(ZeroCount(h, |pad + msg|));
    assert padded == pad + (msg + [0x80] + zeros + field);
    assert tail == msg + [0x80] + zeros + field;
    PaddedBlocksOf(h, |msg|);
  }

  lemma BigEndianOfZero(width: nat)
    ensures BigEndian(0, width) == Zeros(width)
  {
  }

  /** The length bytes the record code writes: only the low four are ever set. */
  function LengthBytes<S>(h: Hash<S>, bits: uint32): seq<bv8> {
    if h.bigEndian then Zeros(h.LengthSize() - 4) + MessageDigest.HostBig(bits)
    else MessageDigest.HostLittle(bits) + Zeros(h.LengthSize() - 4)
  }

  lemma {:induction false} LittleEndianOfZero(width: nat)
    ensures LittleEndian(0, width) == Zeros(width)
  {
    if width > 0 {
      LittleEndianOfZero(width - 1);
    }
  }

  lemma LengthBytesAreField<S>(h: Hash<S>, bits: uint32)
    ensures LengthBytes(h, bits) == LengthField(h, bits)
  {
    if h.bigEndian {
      MessageDigest.BigEndianWord(bits, 0, bits, h.LengthSize() - 4);
      BigEndianOfZero(h.LengthSize() - 4);
    } else {
      MessageDigest.LittleEndianWord(bits, 0, bits, h.LengthSize() - 4);
      LittleEndianOfZero(h.LengthSize() - 4);
    }
  }

  // ---------- one block ----------

  /** The mask arithmetic of one byte of a constant-time block. */
  method MaskByte(raw: bv8, isA: bv8, isB: bv8, pastC: bv8, pastC1: bv8) returns (b: bv8)
    requires isA in {0, 0xff} && isB in {0, 0xff} && pastC in {0, 0xff} && pastC1 in {0, 0xff}
    ensures isA == 0 && isB == 0 ==> b == raw
    ensures isA == 0 && isB != 0 ==> b == 0
    ensures isA != 0 && pastC == 0 && pastC1 == 0 ==> b == raw
    ensures isA != 0 && pastC != 0 && pastC1 == 0 ==> b == 0x80
    ensures isA != 0 && pastC1 != 0 ==> b == 0
  {
    var isPastC := isA & pastC;
    var isPastC1 := isA & pastC1;
    b := (raw & !isPastC) | (0x80 & isPastC);
    b := b & !isPastC1;
    b := b & (!isB | isA);
  }

  method MaskLength(b: bv8, isB: bv8, lengthByte: bv8) returns (r: bv8)
    requires isB in {0, 0xff}
    ensures r == if isB == 0 then b else lengthByte
  {
    r := (b & !isB) | (isB & lengthByte);
  }

  /** Everything the constant-time part knows: the message end, its two special blocks and the tail to be built. */
  ghost predicate Layout<S>(h: Hash<S>, header: seq<bv8>, data: seq<bv8>, c: nat, indexA: nat, indexB: nat,
                            lengthBytes: seq<bv8>, msg: seq<bv8>, tail: seq<bv8>)
  {
    && |header| == 13 && |data| < 0x10_0000
    && msg <= header + data
    && TailForm(h, tail, msg, lengthBytes)
    && c == h.InBlock(|msg|) && indexA == h.BlockOf(|msg|) && indexB == h.BlockOf(|msg| + h.LengthSize())
  }

  /** Byte `k` of header and data, zero behind them. */
  function RawByte(header: seq<bv8>, data: seq<bv8>, k: nat): bv8
    requires |header| == 13
  {
    if k < 13 then header[k] else if k < |data| + 13 then data[k - 13] else 0
  }

  /** Byte `j` of block `i`. */
  method BlockByte<S>(h: Hash<S>, header: seq<bv8>, data: seq<bv8>, i: nat, j: nat, c: nat, indexA: nat, indexB: nat,
                      lengthBytes: seq<bv8>, ghost msg: seq<bv8>, ghost tail: seq<bv8>)
    returns (b: bv8)
    requires Layout(h, header, data, c, indexA, indexB, lengthBytes, msg, tail)
    requires j < h.BlockSize() && i < 0x10_0000
    ensures i <= indexB ==> h.Offset(i) + j < |tail| && b == tail[h.Offset(i) + j]
  {
    var isBlockA := ConstantTimeEq8(i, indexA);
    var isBlockB := ConstantTimeEq8(i, indexB);
    var k := h.Offset(i) + j;
    b := RawByte(header, data, k);
    assert k < |msg| ==> b == msg[k] by {
      assert k < |msg| ==> (header + data)[k] == msg[k];
    }
    var pastC := DuplicateMsb8(ConstantTimeGe(j, c));
    var pastC1 := DuplicateMsb8(ConstantTimeGe(j, c + 1));
    b := MaskByte(b, isBlockA, isBlockB, pastC, pastC1);
    if j >= h.BlockSize() - h.LengthSize() {
      b := MaskLength(b, isBlockB, lengthBytes[j - (h.BlockSize() - h.LengthSize())]);
    }
    if i <= indexB {
      TailByte(h, tail, msg, lengthBytes, i, j);
    }
  }

  /** Block `i` as the masks build it: up to the block with the length it is block `i` of the padded tail. */
  method BuildBlock<S>(h: Hash<S>, header: seq<bv8>, data: seq<bv8>, i: nat, c: nat, indexA: nat, indexB: nat,
                       lengthBytes: seq<bv8>, ghost msg: seq<bv8>, ghost tail: seq<bv8>)
    returns (block: seq<bv8>)
    requires Layout(h, header, data, c, indexA, indexB, lengthBytes, msg, tail) && i < 0x10_0000
    ensures i <= indexB ==> h.Offset(i + 1) <= |tail| && block == tail[h.Offset(i)..h.Offset(i + 1)]
  {
    block := [];
    for j := 0 to h.BlockSize()
      invariant |block| == j
      invariant i <= indexB ==> h.Offset(i) + j <= |tail| && block == tail[h.Offset(i)..h.Offset(i) + j]
    {
      var b := BlockByte(h, header, data, i, j, c, indexA, indexB, lengthBytes, msg, tail);
      block := block + [b];
    }
  }

  /** Where byte `j` of block `i` lies in the padded tail. */
  lemma TailByte<S>(h: Hash<S>, tail: seq<bv8>, msg: seq<bv8>, field: seq<bv8>, i: nat, j: nat)
    requires TailForm(h, tail, msg, field)
    requires i <= h.BlockOf(|msg| + h.LengthSize()) && j < h.BlockSize()
    ensures h.Offset(i) + j < |tail|
    ensures var k, a, c, b := h.Offset(i) + j, h.BlockOf(|msg|), h.InBlock(|msg|), h.BlockOf(|msg| + h.LengthSize());
            && (i < a || (i == a && j < c) ==> k < |msg| && tail[k] == msg[k])
            && (i == a && j == c ==> tail[k] == 0x80)
            && ((i == a && j > c) || i > a ==>
                  tail[k] == if i == b && j >= h.BlockSize() - h.LengthSize() then field[j - (h.BlockSize() - h.LengthSize())] else 0)
            && (i == b && j >= h.BlockSize() - h.LengthSize() ==> i != a || j > c)
  {
    var k := h.Offset(i) + j;
    var b := h.BlockOf(|msg| + h.LengthSize());
    if i == b && j >= h.BlockSize() - h.LengthSize() {
      assert tail[|tail| - h.LengthSize()..][j - (h.BlockSize() - h.LengthSize())] == tail[k];
    }
  }

  // ---------- the whole MAC ----------

  /** The key as the record code uses it: whatever lies beyond one block is ignored. */
  function UsedKey<S>(h: Hash<S>, key: seq<bv8>): (k: seq<bv8>)
    ensures |k| <= h.BlockSize()
  {
    if |key| <= h.BlockSize() then key else key[..h.BlockSize()]
  }

  /** `for (i = 0; i < n; i++) a[i] ^= mask` */
  method XorInPlace(a: array<bv8>, n: nat, mask: bv8)
    requires n <= a.Length
    modifies a
    ensures forall j :: 0 <= j < n ==> a[j] == old(a[j]) ^ mask
    ensures forall j :: n <= j < a.Length ==> a[j] == old(a[j])
  {
    for i := 0 to n
      invariant forall j :: 0 <= j < i ==> a[j] == old(a[j]) ^ mask
      invariant forall j :: i <= j < a.Length ==> a[j] == old(a[j])
    {
      a[i] := a[i] ^ mask;
    }
  }

  /** Fills the key block and masks it with 0x36. */
  method MaskKey<S>(h: Hash<S>, key: seq<bv8>) returns (hmacPad: array<bv8>)
    requires |key| <= 128
    ensures fresh(hmacPad) && hmacPad.Length == 128
    ensures hmacPad[..h.BlockSize()] == KeyPad(h, UsedKey(h, key), 0x36)
  {
    hmacPad := new bv8[128];
    forall i | 0 <= i < 128 { hmacPad[i] := if i < |key| then key[i] else 0; }
    XorInPlace(hmacPad, h.BlockSize(), 0x36);
  }

  lemma Remasked(b: bv8)
    ensures b ^ 0x36 ^ 0x6a == b ^ 0x5c
  {
  }

  /** Turns the inner key block into the outer one. */
  method RemaskKey<S>(h: Hash<S>, key: seq<bv8>, hmacPad: array<bv8>)
    requires |key| <= 128
    requires hmacPad.Length == 128 && hmacPad[..h.BlockSize()] == KeyPad(h, UsedKey(h, key), 0x36)
    modifies hmacPad
    ensures hmacPad[..h.BlockSize()] == KeyPad(h, UsedKey(h, key), 0x5c)
  {
    ghost var inner := hmacPad[..h.BlockSize()];
    XorInPlace(hmacPad, h.BlockSize(), 0x6a);
    RemaskedBlock(h, UsedKey(h, key), inner, hmacPad[..h.BlockSize()]);
  }

  lemma RemaskedBlock<S>(h: Hash<S>, key: seq<bv8>, inner: seq<bv8>, outer: seq<bv8>)
    requires |key| <= h.BlockSize() && inner == KeyPad(h, key, 0x36)
    requires |outer| == |inner| && forall i :: 0 <= i < |inner| ==> outer[i] == inner[i] ^ 0x6a
    ensures outer == KeyPad(h, key, 0x5c)
  {
    forall i | 0 <= i < |inner|
      ensures outer[i] == KeyPad(h, key, 0x5c)[i]
    {
      Remasked(if i < |key| then key[i] else 0);
    }
  }

  /** The blocks that no padding value can affect, straight from header and data. */
  method HashStart<S>(h: Hash<S>, state: S, header: seq<bv8>, data: seq<bv8>, blocks: nat, ghost tail: seq<bv8>)
    returns (r: S)
    requires |header| == 13
    requires h.Offset(blocks) <= |tail| && h.Offset(blocks) <= |data| + 13
    requires tail[..h.Offset(blocks)] == (header + data)[..h.Offset(blocks)]
    ensures r == Fold(h, state, tail, blocks)
  {
    r := state;
    if blocks > 0 {
      var firstBlock := header + data[..h.BlockSize() - 13];
      BlockInside(h, header, data, tail, blocks, 0);
      assert Fold(h, state, tail, 0) == state;
      r := h.transform(r, firstBlock);
      for i := 1 to blocks
        invariant h.Offset(i) <= |tail| && r == Fold(h, state, tail, i)
      {
        var block := data[h.Offset(i) - 13..h.Offset(i + 1) - 13];
        BlockInside(h, header, data, tail, blocks, i);
        r := h.transform(r, block);
      }
    }
  }

  lemma BlockInside<S>(h: Hash<S>, header: seq<bv8>, data: seq<bv8>, tail: seq<bv8>, blocks: nat, i: nat)
    requires |header| == 13 && i < blocks
    requires h.Offset(blocks) <= |tail| && h.Offset(blocks) <= |data| + 13
    requires tail[..h.Offset(blocks)] == (header + data)[..h.Offset(blocks)]
    ensures h.Offset(i + 1) <= h.Offset(blocks)
    ensures tail[h.Offset(i)..h.Offset(i + 1)]
            == if i == 0 then header + data[..h.BlockSize() - 13] else data[h.Offset(i) - 13..h.Offset(i + 1) - 13]
  {
    var a, b, n := h.Offset(i), h.Offset(i + 1), h.Offset(blocks);
    assert tail[a..b] == tail[..n][a..b];
    assert (header + data)[..n][a..b] == (header + data)[a..b];
    if i == 0 {
      assert (header + data)[a..b] == header + data[..b - 13];
    } else {
      assert (header + data)[a..b] == data[a - 13..b - 13];
    }
  }

  method MergeDigest(macOut: seq<bv8>, raw: seq<bv8>, size: nat, mask: bv8) returns (r: seq<bv8>)
    requires |macOut| == size <= |raw| && mask in {0, 0xff}
    ensures mask == 0 ==> r == macOut
    ensures mask == 0xff && macOut == Zeros(size) ==> r == raw[..size]
    ensures |r| == size
  {
    r := [];
    for j := 0 to size
      invariant |r| == j
      invariant mask == 0 ==> r == macOut[..j]
      invariant mask == 0xff && macOut == Zeros(size) ==> r == raw[..j]
    {
      var b := MergeMasked(macOut[j], raw[j], mask);
      r := r + [b];
    }
  }

  method MergeMasked(a: bv8, b: bv8, mask: bv8) returns (r: bv8)
    requires mask in {0, 0xff}
    ensures mask == 0 ==> r == a
    ensures mask == 0xff && a == 0 ==> r == b
  {
    r := a | (b & mask);
  }

  /** The constant-time blocks: the digest after the block with the length is what comes out. */
  method HashEnd<S(!new)>(h: Hash<S>, state: S, header: seq<bv8>, data: seq<bv8>, start: nat, c: nat, indexA: nat, indexB: nat,
                    lengthBytes: seq<bv8>, ghost first: S, ghost msg: seq<bv8>, ghost tail: seq<bv8>)
    returns (macOut: seq<bv8>)
    requires Layout(h, header, data, c, indexA, indexB, lengthBytes, msg, tail)
    requires start <= indexB <= start + 6 && indexB < 0x8_0000
    requires h.Offset(start) <= |tail| && state == Fold(h, first, tail, start)
    requires forall s: S :: |h.finalRaw(s)| >= h.mdSize
    ensures h.Offset(indexB + 1) <= |tail| && macOut == h.finalRaw(Fold(h, first, tail, indexB + 1))[..h.mdSize]
  {
    var s := state;
    macOut := Zeros(h.mdSize);
    for i := start to start + 7
      invariant i <= indexB + 1 ==> h.Offset(i) <= |tail| && s == Fold(h, first, tail, i)
      invariant i <= indexB ==> macOut == Zeros(h.mdSize)
      invariant i > indexB ==> h.Offset(indexB + 1) <= |tail| && macOut == h.finalRaw(Fold(h, first, tail, indexB + 1))[..h.mdSize]
    {
      var block := BuildBlock(h, header, data, i, c, indexA, indexB, lengthBytes, msg, tail);
      s := h.transform(s, block);
      macOut := MergeDigest(macOut, h.finalRaw(s), h.mdSize, ConstantTimeEq8(i, indexB));
    }
  }

  lemma InnerDigest<S(!new)>(h: Hash<S>, pad: seq<bv8>, msg: seq<bv8>, tail: seq<bv8>, indexB: nat, macOut: seq<bv8>)
    requires |pad| == h.BlockSize() && Pad(h, pad + msg) == pad + tail
    requires forall s: S :: |h.finalRaw(s)| >= h.mdSize
    requires indexB == h.BlockOf(|msg| + h.LengthSize()) && h.Offset(indexB + 1) <= |tail|
    requires macOut == h.finalRaw(Fold(h, h.transform(h.init, pad), tail, indexB + 1))[..h.mdSize]
    ensures macOut == Digest(h, pad + msg)
  {
    var n := h.BlockOf(|msg| + h.LengthSize()) + 1;
    PaddedBlocksOf(h, |msg|);
    assert |pad + msg| == h.BlockSize() + |msg|;
    FoldAppend(h, h.init, pad, 1, tail, n);
    assert pad[h.Offset(0)..h.Offset(1)] == pad;
    assert Fold(h, h.init, pad, 0) == h.init;
  }

  /** The inner hash of ssl3_cbc_digest_record, from the masked key block on. */
  method InnerHash<S(!new)>(h: Hash<S>, header: seq<bv8>, data: seq<bv8>, dataPlusMac: nat, pad: seq<bv8>)
    returns (macOut: seq<bv8>)
    requires Supported(h)
    requires |header| == 13 && |data| < 0x10_0000 && |pad| == h.BlockSize()
    requires h.mdSize <= dataPlusMac <= |data| <= dataPlusMac + 256
    ensures macOut == Digest(h, pad + (header + data[..dataPlusMac - h.mdSize]))
  {
    var c, indexA, indexB, start := Schedule(h, dataPlusMac, |data|);
    var lengthBytes := LengthBytes(h, 8 * (dataPlusMac + 13 - h.mdSize) + 8 * h.BlockSize());
    ghost var msg := header + data[..dataPlusMac - h.mdSize];
    ghost var tail := InnerLayout(h, header, data, c, indexA, indexB, lengthBytes, msg, pad);
    macOut := HashTail(h, h.transform(h.init, pad), header, data, start, c, indexA, indexB, lengthBytes, msg, tail);
    InnerDigest(h, pad, msg, tail, indexB, macOut);
  }

  lemma InnerLayout<S>(h: Hash<S>, header: seq<bv8>, data: seq<bv8>, c: nat, indexA: nat, indexB: nat,
                       lengthBytes: seq<bv8>, msg: seq<bv8>, pad: seq<bv8>) returns (tail: seq<bv8>)
    requires |header| == 13 && |data| < 0x10_0000 && |pad| == h.BlockSize() && msg <= header + data
    requires c == h.InBlock(|msg|) && indexA == h.BlockOf(|msg|) && indexB == h.BlockOf(|msg| + h.LengthSize())
    requires lengthBytes == LengthBytes(h, 8 * |msg| + 8 * h.BlockSize())
    ensures Pad(h, pad + msg) == pad + tail
    ensures Layout(h, header, data, c, indexA, indexB, lengthBytes, msg, tail)
  {
    LengthBytesAreField(h, 8 * |msg| + 8 * h.BlockSize());
    tail := InnerTail(h, pad, msg);
  }

  /** All hashing behind the key block. */
  method HashTail<S(!new)>(h: Hash<S>, first: S, header: seq<bv8>, data: seq<bv8>, start: nat, c: nat, indexA: nat, indexB: nat,
                           lengthBytes: seq<bv8>, ghost msg: seq<bv8>, ghost tail: seq<bv8>)
    returns (macOut: seq<bv8>)
    requires Layout(h, header, data, c, indexA, indexB, lengthBytes, msg, tail)
    requires start <= indexA <= indexB <= start + 6 && indexB < 0x8_0000
    requires forall s: S :: |h.finalRaw(s)| >= h.mdSize
    ensures h.Offset(indexB + 1) <= |tail| && macOut == h.finalRaw(Fold(h, first, tail, indexB + 1))[..h.mdSize]
  {
    StartIsMessage(h, header, data, msg, tail, start);
    var state := HashStart(h, first, header, data, start, tail);
    macOut := HashEnd(h, state, header, data, start, c, indexA, indexB, lengthBytes, first, msg, tail);
  }

  /** The public and secret offsets computed before any hashing. */
  method Schedule<S>(h: Hash<S>, dataPlusMac: nat, total: nat) returns (c: nat, indexA: nat, indexB: nat, start: nat)
    requires total < 0x10_0000
    requires h.mdSize <= dataPlusMac <= total <= dataPlusMac + 256
    ensures var end := dataPlusMac + 13 - h.mdSize;
            && c == h.InBlock(end) && indexA == h.BlockOf(end) && indexB == h.BlockOf(end + h.LengthSize())
    ensures start <= indexA <= indexB <= start + 6 && indexB < 0x8_0000
  {
    var end := dataPlusMac + 13 - h.mdSize;
    c, indexA, indexB := h.InBlock(end), h.BlockOf(end), h.BlockOf(end + h.LengthSize());
    start := StartingBlocks(h, total);
    VarianceBlocksSuffice(h, dataPlusMac, total);
  }

  /** ssl3_cbc_digest_record: HMAC over the header and the data without its MAC. */
  method DigestRecord<S(!new)>(h: Hash<S>, header: seq<bv8>, data: seq<bv8>, dataPlusMac: nat, key: seq<bv8>)
    returns (md: seq<bv8>)
    requires Supported(h)
    requires |header| == 13 && |data| < 0x10_0000 && |key| <= 128
    requires h.mdSize <= dataPlusMac <= |data| <= dataPlusMac + 256
    ensures md == Hmac(h, UsedKey(h, key), header + data[..dataPlusMac - h.mdSize])
    ensures |key| <= h.BlockSize() ==> md == Hmac(h, key, header + data[..dataPlusMac - h.mdSize])
  {
    var hmacPad := MaskKey(h, key);
    var macOut := InnerHash(h, header, data, dataPlusMac, hmacPad[..h.BlockSize()]);
    RemaskKey(h, key, hmacPad);
    md := Digest(h, hmacPad[..h.BlockSize()] + macOut);
  }

  lemma StartIsMessage<S>(h: Hash<S>, header: seq<bv8>, data: seq<bv8>, msg: seq<bv8>, tail: seq<bv8>, start: nat)
    requires msg <= tail && msg <= header + data && start <= h.BlockOf(|msg|)
    ensures h.Offset(start) <= |msg|
    ensures tail[..h.Offset(start)] == (header + data)[..h.Offset(start)]
  {
    assert tail[..h.Offset(start)] == tail[..|msg|][..h.Offset(start)];
    assert (header + data)[..h.Offset(start)] == (header + data)[..|msg|][..h.Offset(start)];
  }
}
