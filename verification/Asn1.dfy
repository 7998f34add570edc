/** Bytes, big-endian numbers and DER headers: the vocabulary shared by the
    builder, the parser and the converter. Sections 8.1.3, 8.3 and 10.1 of X.690. */
module Asn1 {
  type byte = x: int | 0 <= x < 256

  datatype Option<T> = None | Some(value: T)

  // ---------- big-endian numbers ----------

  function Pow256(n: nat): (p: nat)
    ensures p >= 1
  {
    if n == 0 then 1 else 256 * Pow256(n - 1)
  }

  /** The low `width` bytes of `n`, most significant first. */
  function ToBytes(n: nat, width: nat): (s: seq<byte>)
    ensures |s| == width
  {
    if width == 0 then [] else ToBytes(n / 256, width - 1) + [n % 256]
  }

  function FromBytes(s: seq<byte>): nat {
    if s == [] then 0 else 256 * FromBytes(s[..|s| - 1]) + s[|s| - 1]
  }

  lemma {:induction false} FromBytesBound(s: seq<byte>)
    ensures FromBytes(s) < Pow256(|s|)
  {
    if s != [] {
      FromBytesBound(s[..|s| - 1]);
    }
  }

  /** Reading back what was written, when it fits. */
  lemma {:induction false} WrittenIsRead(n: nat, width: nat)
    requires n < Pow256(width)
    ensures FromBytes(ToBytes(n, width)) == n
  {
    if width > 0 {
      WrittenIsRead(n / 256, width - 1);
      var s := ToBytes(n, width);
      assert s[..|s| - 1] == ToBytes(n / 256, width - 1);
    }
  }

  /** Writing again what was read. */
  lemma {:induction false} ReadIsWritten(s: seq<byte>)
    ensures ToBytes(FromBytes(s), |s|) == s
  {
    if s != [] {
      var front, last := s[..|s| - 1], s[|s| - 1];
      ReadIsWritten(front);
      assert FromBytes(s) / 256 == FromBytes(front) && FromBytes(s) % 256 == last;
      assert front + [last] == s;
    }
  }

  lemma Pow256Values()
    ensures Pow256(1) == 0x100 && Pow256(2) == 0x1_0000 && Pow256(3) == 0x100_0000 && Pow256(4) == 0x1_0000_0000
  {
    assert Pow256(0) == 1;
    assert Pow256(1) == 0x100;
    assert Pow256(2) == 0x1_0000;
    assert Pow256(3) == 0x100_0000;
  }

  function Zeros(n: nat): (z: seq<byte>)
    ensures |z| == n
  {
    seq(n, i => 0)
  }

  // ---------- identifier and length octets ----------

  /** Identifiers of one octet. */
  predicate IsShortTag(tag: byte) { tag % 32 != 31 }

  predicate IsConstructed(tag: byte) { tag / 32 % 2 == 1 }

  /** How many octets the long form of `len` takes behind the first. */
  function LongCount(len: nat): (k: nat)
    requires 128 <= len < 0x1_0000_0000
    ensures 1 <= k <= 4 && len < Pow256(k) && (k > 1 ==> Pow256(k - 1) <= len)
  {
    Pow256Values();
    if len <= 0xff then 1 else if len <= 0xffff then 2 else if len <= 0xff_ffff then 3 else 4
  }

  /** The shortest encoding of a length. */
  function LengthOctets(len: nat): (s: seq<byte>)
    requires len < 0x1_0000_0000
    ensures 1 <= |s| <= 5
  {
    if len < 128 then [len] else [0x80 + LongCount(len)] + ToBytes(len, LongCount(len))
  }

  /** Tag, length and contents. */
  function Tlv(tag: byte, contents: seq<byte>): seq<byte>
    requires |contents| < 0x1_0000_0000
  {
    [tag] + LengthOctets(|contents|) + contents
  }
}
