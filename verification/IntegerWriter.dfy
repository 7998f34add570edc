/** CBB_add_asn1_uint64 of ssl/bs_cbb.c: an unsigned 64-bit number as a DER INTEGER. */
module IntegerWriter {
  import opened Asn1
  import opened ByteBuilder
  import ByteReader

  /** The first `i` of the eight big-endian bytes of `v`, as a number. */
  function Leading(v: nat, i: nat): nat
    requires i <= 8
  {
    FromBytes(ToBytes(v, 8)[..i])
  }

  lemma LeadingStep(v: nat, i: nat)
    requires i < 8
    ensures Leading(v, i + 1) == 256 * Leading(v, i) + ToBytes(v, 8)[i]
  {
    var s := ToBytes(v, 8);
    assert s[..i + 1][..i] == s[..i];
  }

  lemma LeadingEnds(v: nat)
    requires v < 0x1_0000_0000_0000_0000
    ensures Leading(v, 0) == 0 && Leading(v, 8) == v
  {
    assert Pow256(8) == 0x1_0000_0000_0000_0000 by { Pow256Values(); }
    WrittenIsRead(v, 8);
    assert ToBytes(v, 8)[..8] == ToBytes(v, 8);
  }

  /** The contents written for a leading part. */
  function Octets(n: nat): seq<byte> { if n == 0 then [] else ByteReader.IntegerOctets(n) }

  method PushByte(base: Buffer, child: Cbb, b: byte, ghost k: nat, ghost chain: seq<Cbb>, ghost kinds: seq<Kind>,
                  ghost parts: seq<seq<byte>>, ghost contents: seq<byte>)
    returns (ok: bool)
    requires |chain| == |parts| == k + 1 && |kinds| == k && Writing(base, child, k, chain, kinds, parts, contents)
    modifies base, chain`child, chain`offset, chain`pendingLenLen, chain`pendingIsAsn1, chain`base, child
    ensures ok ==> Writing(base, child, k, chain, kinds, parts, contents + [b])
    ensures Roomy(base) && Length(parts, kinds) + |contents| + 2 < 0x1_0000_0000_0000_0000 ==> ok
  {
    OneByte(b);
    LengthSnoc(parts, kinds, Der, contents);
    assert base.Link(k + 1);
    AlreadyClosed(base.parts, base.kinds);
    ok := AddU(child, b, 1, k + 1);
  }

  lemma OctetsStep(n: nat, b: byte)
    ensures Octets(256 * n + b) == if n == 0 && b == 0 then [] else if n == 0 && b >= 128 then [0, b] else Octets(n) + [b]
  {
    assert (256 * n + b) / 256 == n && (256 * n + b) % 256 == b;
    if n == 0 && b >= 128 {
      assert ByteReader.IntegerOctets(0) == [0];
    }
  }

  /** One round of the loop: leading zero bytes are skipped, a zero goes before a set high bit. */
  method WriteOctet(base: Buffer, child: Cbb, b: byte, started: bool, ghost n: nat, ghost k: nat, ghost chain: seq<Cbb>,
                    ghost kinds: seq<Kind>, ghost parts: seq<seq<byte>>)
    returns (ok: bool, started': bool)
    requires |chain| == |parts| == k + 1 && |kinds| == k && Writing(base, child, k, chain, kinds, parts, Octets(n))
    requires started == (n != 0)
    modifies base, chain`child, chain`offset, chain`pendingLenLen, chain`pendingIsAsn1, chain`base, child
    ensures ok ==> Writing(base, child, k, chain, kinds, parts, Octets(256 * n + b)) && started' == (256 * n + b != 0)
    ensures Roomy(base) && Length(parts, kinds) + |Octets(n)| + 3 < 0x1_0000_0000_0000_0000 ==> ok
  {
    OctetsStep(n, b);
    ghost var written := Octets(n);
    started' := started;
    if !started {
      if b == 0 {
        return true, false;
      }
      if b >= 0x80 {
        ok := PushByte(base, child, 0, k, chain, kinds, parts, written);
        if !ok {
          return;
        }
        written := written + [0];
      }
      started' := true;
    }
    assert written + [b] == Octets(256 * n + b);
    ok := PushByte(base, child, b, k, chain, kinds, parts, written);
  }

  lemma {:induction false} ShortOctets(v: nat, i: nat)
    requires i <= 8
    ensures |Octets(Leading(v, i))| <= i + 1 && (i == 0 ==> Leading(v, i) == 0)
  {
    if i > 0 {
      ShortOctets(v, i - 1);
      LeadingStep(v, i - 1);
      OctetsStep(Leading(v, i - 1), ToBytes(v, 8)[i - 1]);
    }
  }

  lemma ShortInteger(v: nat)
    requires v < 0x1_0000_0000_0000_0000
    ensures |ByteReader.IntegerOctets(v)| <= 9
  {
    LeadingEnds(v);
    ShortOctets(v, 8);
    assert ByteReader.IntegerOctets(0) == [0];
  }

  /** The loop of CBB_add_asn1_uint64. */
  method WriteOctets(base: Buffer, child: Cbb, v: nat, ghost k: nat, ghost chain: seq<Cbb>, ghost kinds: seq<Kind>, ghost parts: seq<seq<byte>>)
    returns (ok: bool)
    requires v < 0x1_0000_0000_0000_0000
    requires |chain| == |parts| == k + 1 && |kinds| == k && Writing(base, child, k, chain, kinds, parts, [])
    modifies base, chain`child, chain`offset, chain`pendingLenLen, chain`pendingIsAsn1, chain`base, child
    ensures ok ==> Writing(base, child, k, chain, kinds, parts, ByteReader.IntegerOctets(v))
    ensures Roomy(base) && Length(parts, kinds) + 20 < 0x1_0000_0000_0000_0000 ==> ok
  {
    LeadingEnds(v);
    var started, bytes := false, ToBytes(v, 8);
    for i := 0 to 8
      invariant started == (Leading(v, i) != 0)
      invariant Writing(base, child, k, chain, kinds, parts, Octets(Leading(v, i)))
    {
      LeadingStep(v, i);
      ShortOctets(v, i);
      ok, started := WriteOctet(base, child, bytes[i], started, Leading(v, i), k, chain, kinds, parts);
      if !ok {
        return;
      }
    }
    ok := true;
    assert ByteReader.IntegerOctets(0) == [] + [0];
    if !started {
      ok := PushByte(base, child, 0, k, chain, kinds, parts, []);
    }
  }

  /** The octets and the end of the element. */
  method WriteContents(base: Buffer, cbb: Cbb, child: Cbb, v: nat, ghost k: nat, ghost chain: seq<Cbb>, ghost kinds: seq<Kind>,
                       ghost parts: seq<seq<byte>>)
    returns (ok: bool)
    requires v < 0x1_0000_0000_0000_0000
    requires |chain| == |parts| == k + 1 && |kinds| == k && chain[k] == cbb && Writing(base, child, k, chain, kinds, parts, [])
    modifies base, chain`child, chain`offset, chain`pendingLenLen, chain`pendingIsAsn1, chain`base, child
    ensures ok ==> base.Valid() && base.chain == chain && base.kinds == kinds && |ByteReader.IntegerOctets(v)| <= 0xffff_fffe
    ensures ok ==> var octets := ByteReader.IntegerOctets(v);
                   base.parts == parts[..k] + [parts[k] + (LengthOctets(|octets|) + octets)]
    ensures Roomy(base) && Length(parts, kinds) + 20 < 0x1_0000_0000_0000_0000 ==> ok
  {
    ShortInteger(v);
    ok := WriteOctets(base, child, v, k, chain, kinds, parts);
    if ok {
      ok := CloseElement(base, cbb, child, k, chain, kinds, parts, ByteReader.IntegerOctets(v));
    }
  }

  /** The lengths behind level `k` fit, and an INTEGER more can be measured by a size_t. */
  ghost predicate Spacious(parts: seq<seq<byte>>, kinds: seq<Kind>, k: nat)
    requires Shape(parts, kinds) && k <= |kinds|
  {
    AllFit(parts, kinds, k) && Extent(parts, kinds, k) + 21 < 0x1_0000_0000_0000_0000
  }

  /** CBB_add_asn1_uint64 */
  method AddAsn1Uint64(cbb: Cbb, v: nat, ghost k: nat) returns (ok: bool)
    requires v < 0x1_0000_0000_0000_0000
    requires cbb.base != null ==> IsOpen(cbb, k)
    modifies cbb.base, Family(cbb)`child, Family(cbb)`offset, Family(cbb)`pendingLenLen, Family(cbb)`pendingIsAsn1, Family(cbb)`base
    ensures old(cbb.base) == null ==> !ok
    ensures ok ==> cbb.base == old(cbb.base) && IsOpen(cbb, k)
    ensures ok ==> |ByteReader.IntegerOctets(v)| < 0x1_0000_0000
                   && Extended(cbb.base, k, Tlv(ByteReader.INTEGER, ByteReader.IntegerOctets(v)))
    ensures old(cbb.base) != null && Roomy(old(cbb.base)) && Spacious(old(cbb.base.parts), old(cbb.base.kinds), k) ==> ok
  {
    if cbb.base == null {
      return false;
    }
    var base := cbb.base;
    var child := new Cbb();
    ghost var chain, kinds, parts := base.chain[..k + 1], base.kinds[..k], base.parts[..k] + [Closed(base.parts, base.kinds, k) + [2]];
    LengthClosed(base.parts, base.kinds, k, [2]);
    ok := OpenElement(base, cbb, child, ByteReader.INTEGER, k, chain, kinds, parts);
    if ok {
      ok := WriteContents(base, cbb, child, v, k, chain, kinds, parts);
    }
    if ok {
      assert base.Link(k);
      ElementWritten(Closed(old(cbb.base.parts), old(cbb.base.kinds), k), ByteReader.INTEGER, ByteReader.IntegerOctets(v));
      assert parts[..k] == old(cbb.base.parts)[..k];
    }
  }
}
