/** Iterated hash functions and HMAC as the standards define them. The
    compression function stays abstract; the padding, the length field and the
    block schedule are concrete. Sections 5.1.1 of FIPS 180-4, 3.1 and 3.2 of
    RFC 1321, and 2 of RFC 2104. */
module Hashing {

  /** A hash function: `wide` selects 128-byte blocks with a 16-byte length
      field (SHA-384/512) over 64-byte blocks with an 8-byte field. */
  datatype Hash<!S> = Hash(
    init: S,
    transform: (S, seq<bv8>) -> S,
    finalRaw: S -> seq<bv8>,
    mdSize: nat,
    wide: bool,
    bigEndian: bool)
  {
    function BlockSize(): nat { if wide then 128 else 64 }

    function LengthSize(): nat { if wide then 16 else 8 }

    /** Byte offset of block `n`. */
    function Offset(n: nat): nat { if wide then 128 * n else 64 * n }

    /** The block that holds byte `k`. */
    function BlockOf(k: nat): nat { if wide then k / 128 else k / 64 }

    /** The position of byte `k` in its block. */
    function InBlock(k: nat): nat { if wide then k % 128 else k % 64 }
  }

  /** The six digests the record code knows. */
  predicate KnownDigest<S>(h: Hash<S>) {
    (h.mdSize, h.wide, h.bigEndian)
    in {(16, false, false), (20, false, true), (28, false, true), (32, false, true), (48, true, true), (64, true, true)}
  }

  /** MD5 is the one with little-endian words; of the others those up to SHA-256 have blocks of 64 bytes. */
  lemma KnownDigests<S>(h: Hash<S>)
    ensures KnownDigest(h) <==> if h.wide then h.bigEndian && (h.mdSize == 48 || h.mdSize == 64)
                                else if h.bigEndian then h.mdSize == 20 || h.mdSize == 28 || h.mdSize == 32 else h.mdSize == 16
  {
  }

  ghost predicate Supported<S(!new)>(h: Hash<S>) {
    && KnownDigest(h)
    && forall s: S :: |h.finalRaw(s)| >= h.mdSize
  }

  // ---------- length fields ----------

  /** The low `width` bytes of `n`, most significant first. */
  function BigEndian(n: nat, width: nat): (bytes: seq<bv8>)
    ensures |bytes| == width
  {
    if width == 0 then [] else BigEndian(n / 256, width - 1) + [(n % 256) as bv8]
  }

  /** The low `width` bytes of `n`, least significant first. */
  function LittleEndian(n: nat, width: nat): (bytes: seq<bv8>)
    ensures |bytes| == width
  {
    if width == 0 then [] else [(n % 256) as bv8] + LittleEndian(n / 256, width - 1)
  }

  function LengthField<S>(h: Hash<S>, bits: nat): (bytes: seq<bv8>)
    ensures |bytes| == h.LengthSize()
  {
    if h.bigEndian then BigEndian(bits, h.LengthSize()) else LittleEndian(bits, h.LengthSize())
  }

  // ---------- padding ----------

  function Zeros(n: nat): (z: seq<bv8>)
    ensures |z| == n
    ensures forall i :: 0 <= i < n ==> z[i] == 0
  {
    seq(n, i => 0)
  }

  /** The fewest zero bytes that make message, 0x80 and length field fill whole blocks. */
  function ZeroCount<S>(h: Hash<S>, len: nat): (z: nat)
    ensures z < h.BlockSize()
  {
    if h.wide then (128 - (len + 17) % 128) % 128 else (64 - (len + 9) % 64) % 64
  }

  /** Number of blocks of the padded form of a `len`-byte message. */
  function PaddedBlocks<S>(h: Hash<S>, len: nat): (n: nat)
    ensures h.Offset(n) == len + 1 + ZeroCount(h, len) + h.LengthSize()
  {
    ZerosFill(len + 9, len + 17);
    h.BlockOf(len + 1 + ZeroCount(h, len) + h.LengthSize())
  }

  /** The zeros fill up the last block, of either size. */
  lemma ZerosFill(t: nat, u: nat)
    ensures 64 * ((t + (64 - t % 64) % 64) / 64) == t + (64 - t % 64) % 64
    ensures 128 * ((u + (128 - u % 128) % 128) / 128) == u + (128 - u % 128) % 128
  {
    assert (64 - t % 64) % 64 == if t % 64 == 0 then 0 else 64 - t % 64;
    assert (128 - u % 128) % 128 == if u % 128 == 0 then 0 else 128 - u % 128;
  }

  function Pad<S>(h: Hash<S>, msg: seq<bv8>): (padded: seq<bv8>)
    ensures |padded| == h.Offset(PaddedBlocks(h, |msg|))
    ensures msg <= padded
  {
    msg + [0x80] + Zeros(ZeroCount(h, |msg|)) + LengthField(h, 8 * |msg|)
  }

  // ---------- the iterated hash and HMAC ----------

  /** The compression function folded over the first `n` blocks of `data`. */
  function Fold<S>(h: Hash<S>, s: S, data: seq<bv8>, n: nat): S
    requires h.Offset(n) <= |data|
    decreases n
  {
    if n == 0 then s
    else h.transform(Fold(h, s, data, n - 1), data[h.Offset(n - 1)..h.Offset(n)])
  }

  function Digest<S(!new)>(h: Hash<S>, msg: seq<bv8>): seq<bv8>
    requires forall s: S :: |h.finalRaw(s)| >= h.mdSize
  {
    h.finalRaw(Fold(h, h.init, Pad(h, msg), PaddedBlocks(h, |msg|)))[..h.mdSize]
  }

  /** The key filled with zeros to a block, XORed with `mask` throughout. */
  function KeyPad<S>(h: Hash<S>, key: seq<bv8>, mask: bv8): (pad: seq<bv8>)
    requires |key| <= h.BlockSize()
    ensures |pad| == h.BlockSize()
  {
    seq(h.BlockSize(), i requires 0 <= i => (if i < |key| then key[i] else 0) ^ mask)
  }

  /** HMAC for a key no longer than a block. */
  function Hmac<S(!new)>(h: Hash<S>, key: seq<bv8>, msg: seq<bv8>): seq<bv8>
    requires |key| <= h.BlockSize()
    requires forall s: S :: |h.finalRaw(s)| >= h.mdSize
  {
    Digest(h, KeyPad(h, key, 0x5c) + Digest(h, KeyPad(h, key, 0x36) + msg))
  }

  // ---------- facts about the fold ----------

  /** The fold looks at nothing beyond its blocks. */
  lemma {:induction false} FoldPrefix<S>(h: Hash<S>, s: S, a: seq<bv8>, b: seq<bv8>, n: nat)
    requires h.Offset(n) <= |a| && h.Offset(n) <= |b|
    requires a[..h.Offset(n)] == b[..h.Offset(n)]
    ensures Fold(h, s, a, n) == Fold(h, s, b, n)
    decreases n
  {
    if n > 0 {
      var p, q := h.Offset(n - 1), h.Offset(n);
      assert a[..p] == a[..q][..p] && b[..p] == b[..q][..p];
      assert a[p..q] == a[..q][p..] && b[p..q] == b[..q][p..];
      FoldPrefix(h, s, a, b, n - 1);
    }
  }

  /** Folding in two stages. */
  lemma {:induction false} FoldAppend<S>(h: Hash<S>, s: S, a: seq<bv8>, m: nat, b: seq<bv8>, n: nat)
    requires |a| == h.Offset(m) && h.Offset(n) <= |b|
    ensures |a + b| >= h.Offset(m + n)
    ensures Fold(h, s, a + b, m + n) == Fold(h, Fold(h, s, a, m), b, n)
    decreases n
  {
    if n == 0 {
      assert (a + b)[..h.Offset(m)] == a[..h.Offset(m)];
      FoldPrefix(h, s, a + b, a, m);
    } else {
      FoldAppend(h, s, a, m, b, n - 1);
      assert (a + b)[h.Offset(m + n - 1)..h.Offset(m + n)] == b[h.Offset(n - 1)..h.Offset(n)];
    }
  }
}
