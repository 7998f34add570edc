/** The parser of ssl/bs_cbs.c. `Cbs` is the cursor over the bytes not yet read;
    the functions before it say what each reader accepts. */
module ByteReader {
  import opened Asn1

  const INTEGER: byte := 0x02
  const OCTETSTRING: byte := 0x04
  const SEQUENCE: byte := 0x30

  // ---------- element headers ----------

  /** An element: its tag, the length of its header and the length of header and contents. */
  datatype Element = Element(tag: byte, header: nat, total: nat)

  /** What cbs_get_any_asn1_element_internal accepts at the start of `d`. */
  function ReadElement(d: seq<byte>, strict: bool): (r: Option<Element>)
    ensures r.Some? ==> 2 <= r.value.header <= r.value.total <= |d| && r.value.tag == d[0]
  {
    if |d| < 2 || !IsShortTag(d[0]) then None
    else if d[1] < 0x80 then
      if d[1] + 2 <= |d| then Some(Element(d[0], 2, d[1] + 2)) else None
    else
      var count := d[1] - 0x80;
      if count == 0 then
        if strict || !IsConstructed(d[0]) then None else Some(Element(d[0], 2, 2))
      else if count > 4 || |d| < 2 + count then None
      else
        var len := FromBytes(d[2..2 + count]);
        if len < 128 || len < Pow256(count - 1) || |d| < len + 2 + count then None
        else Some(Element(d[0], 2 + count, len + 2 + count))
  }

  /** The only encoding of a length is the shortest one. */
  lemma LengthOctetsRead(len: nat, rest: seq<byte>)
    requires 128 <= len < 0x1_0000_0000
    ensures var s, k := LengthOctets(len) + rest, LongCount(len);
            s[0] == 0x80 + k && |s| >= 1 + k && FromBytes(s[1..1 + k]) == len && s[1 + k..] == rest
  {
    var k := LongCount(len);
    WrittenIsRead(len, k);
    assert (LengthOctets(len) + rest)[1..1 + k] == ToBytes(len, k);
  }

  /** The reader accepts what the writer emits, whatever follows. */
  lemma WriterThenReader(tag: byte, contents: seq<byte>, rest: seq<byte>, strict: bool)
    requires IsShortTag(tag) && |contents| < 0x1_0000_0000
    ensures var header := 1 + |LengthOctets(|contents|)|;
            && ReadElement(Tlv(tag, contents) + rest, strict) == Some(Element(tag, header, header + |contents|))
            && (Tlv(tag, contents) + rest)[header..header + |contents|] == contents
            && (Tlv(tag, contents) + rest)[header + |contents|..] == rest
  {
    var len := |contents|;
    var d := Tlv(tag, contents) + rest;
    assert d == [tag] + (LengthOctets(len) + (contents + rest));
    if len >= 128 {
      LengthOctetsRead(len, contents + rest);
      var k := LongCount(len);
      assert d[2..2 + k] == (LengthOctets(len) + (contents + rest))[1..1 + k];
    }
  }

  /** What the strict reader accepts is what the writer emits for the same tag and contents. */
  lemma ReaderThenWriter(d: seq<byte>)
    requires ReadElement(d, true).Some?
    ensures var e := ReadElement(d, true).value;
            && IsShortTag(e.tag) && e.total - e.header < 0x1_0000_0000
            && d == Tlv(e.tag, d[e.header..e.total]) + d[e.total..]
  {
    var e := ReadElement(d, true).value;
    StrictHeader(d);
    Reassemble(d, e.header, e.total);
  }

  /** The header the strict reader accepted is tag and shortest length. */
  lemma StrictHeader(d: seq<byte>)
    requires ReadElement(d, true).Some?
    ensures var e := ReadElement(d, true).value;
            e.total - e.header < 0x1_0000_0000 && LengthOctets(e.total - e.header) == d[1..e.header] && IsShortTag(e.tag)
  {
    var e := ReadElement(d, true).value;
    if d[1] < 0x80 {
      assert d[1..2] == [d[1]];
    } else {
      LongForm(d[2..e.header], e.total - e.header);
      assert d[1..e.header] == [d[1]] + d[2..e.header];
    }
  }

  lemma CountOf(len: nat, k: nat)
    requires 1 <= k <= 4 && 128 <= len < Pow256(k) && Pow256(k - 1) <= len
    ensures len < 0x1_0000_0000 && LongCount(len) == k
  {
    Pow256Values();
  }

  lemma LongForm(s: seq<byte>, len: nat)
    requires 1 <= |s| <= 4 && FromBytes(s) == len >= 128 && len >= Pow256(|s| - 1)
    ensures len < 0x1_0000_0000 && LengthOctets(len) == [0x80 + |s|] + s
  {
    FromBytesBound(s);
    ReadIsWritten(s);
    LongOctets(s, len, |s|);
  }

  lemma LongOctets(s: seq<byte>, len: nat, k: nat)
    requires 1 <= k <= 4 && 128 <= len < Pow256(k) && Pow256(k - 1) <= len && ToBytes(len, k) == s
    ensures len < 0x1_0000_0000 && LengthOctets(len) == [0x80 + k] + s
  {
    CountOf(len, k);
  }

  lemma Reassemble(d: seq<byte>, h: nat, n: nat)
    requires 1 <= h <= n <= |d|
    ensures d == [d[0]] + d[1..h] + d[h..n] + d[n..]
  {
  }

  /** The relaxed reader accepts, besides, only the indefinite form of a constructed element. */
  lemma RelaxedReader(d: seq<byte>)
    ensures var r := ReadElement(d, false);
            r.Some? ==> (r == ReadElement(d, true)
                         || (r.value.header == r.value.total == 2 && d[1] == 0x80 && IsConstructed(d[0]) && IsShortTag(d[0])))
  {
  }

  // ---------- integers ----------

  /** The shortest two's complement encoding of a non-negative number. */
  function IntegerOctets(v: nat): (s: seq<byte>)
    ensures |s| >= 1
  {
    if v < 128 then [v] else IntegerOctets(v / 256) + [v % 256]
  }

  /** X.690's minimality rule for a non-negative integer. */
  predicate IsMinimal(s: seq<byte>) {
    |s| >= 1 && s[0] < 128 && !(s[0] == 0 && |s| > 1 && s[1] < 128)
  }

  lemma {:induction false} IntegerOctetsRead(v: nat)
    ensures FromBytes(IntegerOctets(v)) == v && IsMinimal(IntegerOctets(v))
    ensures v >= 128 ==> |IntegerOctets(v)| >= 2
  {
    if v < 128 {
      assert [v][..0] == [];
    } else {
      IntegerOctetsRead(v / 256);
      var s := IntegerOctets(v);
      assert s[..|s| - 1] == IntegerOctets(v / 256);
      if v / 256 == 0 {
        assert IntegerOctets(0) == [0];
      }
    }
  }

  lemma {:induction false} MinimalIsIntegerOctets(s: seq<byte>)
    requires IsMinimal(s)
    ensures s == IntegerOctets(FromBytes(s))
  {
    var front, last := s[..|s| - 1], s[|s| - 1];
    if |s| == 1 {
      assert FromBytes(front) == 0;
    } else {
      MinimalIsIntegerOctets(front);
      assert front + [last] == s;
      assert IntegerOctets(0) == [0] && (|front| == 1 ==> front[..0] == []);
      assert FromBytes(s) >= 128;
    }
  }

  // ---------- what the readers take off the front ----------

  function TakeAsn1(d: seq<byte>, tag: byte): (r: Option<(seq<byte>, seq<byte>)>) {
    match ReadElement(d, true)
    case None => None
    case Some(e) => if e.tag == tag then Some((d[e.header..e.total], d[e.total..])) else None
  }

  function TakeUint64(d: seq<byte>): (r: Option<(nat, seq<byte>)>) {
    match TakeAsn1(d, INTEGER)
    case None => None
    case Some((contents, rest)) =>
      if IsMinimal(contents) && FromBytes(contents) < 0x1_0000_0000_0000_0000 then Some((FromBytes(contents), rest)) else None
  }

  /** Reading one element: exactly the writer's output is taken. */
  lemma TakeAsn1Iff(d: seq<byte>, tag: byte, contents: seq<byte>, rest: seq<byte>)
    requires IsShortTag(tag) && |contents| < 0x1_0000_0000
    ensures TakeAsn1(d, tag) == Some((contents, rest)) <==> d == Tlv(tag, contents) + rest
  {
    if d == Tlv(tag, contents) + rest {
      WriterThenReader(tag, contents, rest, true);
    }
    if TakeAsn1(d, tag) == Some((contents, rest)) {
      ReaderThenWriter(d);
    }
  }

  lemma IntegerOctetsLength(v: nat, k: nat)
    requires v < Pow256(k)
    ensures |IntegerOctets(v)| <= k + 1
  {
    if v >= 128 && k > 0 {
      IntegerOctetsLength(v / 256, k - 1);
    }
  }

  /** The unsigned integer reader inverts the minimal encoding and accepts nothing else. */
  lemma TakeUint64Iff(d: seq<byte>, v: nat, rest: seq<byte>)
    requires v < 0x1_0000_0000_0000_0000
    ensures |IntegerOctets(v)| <= 9
    ensures TakeUint64(d) == Some((v, rest)) <==> d == Tlv(INTEGER, IntegerOctets(v)) + rest
  {
    Pow256Values();
    assert Pow256(8) == 0x1_0000_0000_0000_0000 by { assert Pow256(6) == 0x1_0000_0000_0000; }
    IntegerOctetsLength(v, 8);
    IntegerOctetsRead(v);
    TakeAsn1Iff(d, INTEGER, IntegerOctets(v), rest);
    if TakeUint64(d) == Some((v, rest)) {
      MinimalIsIntegerOctets(TakeAsn1(d, INTEGER).value.0);
    }
  }

  function TakePrefixed(d: seq<byte>, width: nat): (r: Option<(seq<byte>, seq<byte>)>)
    requires 1 <= width <= 4
  {
    if |d| < width || |d| < width + FromBytes(d[..width]) then None
    else Some((d[width..width + FromBytes(d[..width])], d[width + FromBytes(d[..width])..]))
  }

  /** Reading a length-prefixed field: exactly prefix and contents are taken. */
  lemma TakePrefixedIff(d: seq<byte>, width: nat, contents: seq<byte>, rest: seq<byte>)
    requires 1 <= width <= 4 && |contents| < Pow256(width)
    ensures TakePrefixed(d, width) == Some((contents, rest)) <==> d == ToBytes(|contents|, width) + contents + rest
  {
    WrittenIsRead(|contents|, width);
    if d == ToBytes(|contents|, width) + contents + rest {
      PrefixedSplit(ToBytes(|contents|, width), contents, rest, d);
    }
    if TakePrefixed(d, width) == Some((contents, rest)) {
      ReadIsWritten(d[..width]);
      PrefixedJoin(d, width, |contents|);
    }
  }

  lemma PrefixedSplit(prefix: seq<byte>, contents: seq<byte>, rest: seq<byte>, d: seq<byte>)
    requires d == prefix + contents + rest
    ensures var w, n := |prefix|, |contents|;
            d[..w] == prefix && d[w..w + n] == contents && d[w + n..] == rest
  {
  }

  lemma PrefixedJoin(d: seq<byte>, w: nat, n: nat)
    requires w + n <= |d|
    ensures d == d[..w] + d[w..w + n] + d[w + n..]
  {
  }

  /** CBS_get_optional_asn1: presence, contents and the rest. */
  function TakeOptional(d: seq<byte>, tag: byte): (r: Option<(bool, seq<byte>, seq<byte>)>) {
    if |d| >= 1 && IsShortTag(tag) && d[0] == tag then
      match TakeAsn1(d, tag)
      case None => None
      case Some((contents, rest)) => Some((true, contents, rest))
    else Some((false, [], d))
  }

  /** CBS_get_optional_asn1_octet_string: an absent string is empty. */
  function TakeOptionalOctets(d: seq<byte>, tag: byte): (r: Option<(bool, seq<byte>, seq<byte>)>) {
    match TakeOptional(d, tag)
    case None => None
    case Some((present, child, rest)) =>
      if !present then Some((false, [], rest))
      else match TakeAsn1(child, OCTETSTRING)
        case None => None
        case Some((octets, tail)) => if tail == [] then Some((true, octets, rest)) else None
  }

  /** CBS_get_optional_asn1_uint64 */
  function TakeOptionalUint64(d: seq<byte>, tag: byte, default: nat): (r: Option<(nat, seq<byte>)>) {
    match TakeOptional(d, tag)
    case None => None
    case Some((present, child, rest)) =>
      if !present then Some((default, rest))
      else match TakeUint64(child)
        case None => None
        case Some((v, tail)) => if tail == [] then Some((v, rest)) else None
  }

  // ---------- the cursor ----------

  class Cbs {
    var data: seq<byte>

    constructor (data: seq<byte>)
      ensures this.data == data
    {
      this.data := data;
    }

    /** CBS_get_bytes */
    method GetBytes(n: nat) returns (ok: bool, out: seq<byte>)
      modifies this
      ensures ok == (n <= |old(data)|)
      ensures ok ==> out == old(data)[..n] && data == old(data)[n..]
      ensures !ok ==> data == old(data)
    {
      if |data| < n {
        return false, [];
      }
      ok, out := true, data[..n];
      data := data[n..];
    }

    /** CBS_get_u8 */
    method GetU8() returns (ok: bool, v: byte)
      modifies this
      ensures ok == (1 <= |old(data)|)
      ensures ok ==> v == old(data)[0] && data == old(data)[1..]
      ensures !ok ==> data == old(data)
    {
      if |data| < 1 {
        return false, 0;
      }
      ok, v := true, data[0];
      data := data[1..];
    }

    /** cbs_get_u */
    method GetU(n: nat) returns (ok: bool, v: nat)
      modifies this
      ensures ok == (1 <= n <= 4 && n <= |old(data)|)
      ensures ok ==> v == FromBytes(old(data)[..n]) && data == old(data)[n..]
      ensures !ok ==> data == old(data)
    {
      v := 0;
      if n < 1 || n > 4 {
        return false, 0;
      }
      var bytes;
      ok, bytes := GetBytes(n);
      if !ok {
        return;
      }
      for i := 0 to n
        invariant v == FromBytes(bytes[..i])
      {
        assert bytes[..i + 1][..i] == bytes[..i];
        v := v * 256 + bytes[i];
      }
      assert bytes[..n] == bytes;
    }

    /** cbs_get_length_prefixed */
    method GetLengthPrefixed(n: nat) returns (ok: bool, out: seq<byte>)
      requires 1 <= n <= 4
      modifies this
      ensures ok == TakePrefixed(old(data), n).Some?
      ensures ok ==> TakePrefixed(old(data), n) == Some((out, data))
    {
      var len;
      ok, len := GetU(n);
      if !ok {
        return false, [];
      }
      assert old(data)[n..][..|data|] == data;
      ghost var body := data;
      ok, out := GetBytes(len);
      if ok {
        assert body[..len] == old(data)[n..n + len] && body[len..] == old(data)[n + len..];
      }
    }

    /** cbs_get_any_asn1_element_internal */
    method GetAnyElement(strict: bool) returns (ok: bool, e: Element, out: seq<byte>)
      modifies this
      ensures ok == ReadElement(old(data), strict).Some?
      ensures ok ==> Some(e) == ReadElement(old(data), strict) && out == old(data)[..e.total] && data == old(data)[e.total..]
      ensures !ok ==> data == old(data)
    {
      e := Element(0, 0, 0);
      var header := new Cbs(data);
      var okTag, tag := header.GetU8();
      var okLen, first := header.GetU8();
      if !okTag || !okLen {
        return false, e, [];
      }
      if tag % 32 == 31 {
        return false, e, [];
      }
      if first < 0x80 {
        e := Element(tag, 2, first + 2);
      } else {
        var count := first - 0x80;
        if count == 0x7f {
          return false, e, [];
        }
        if count == 0 {
          if strict {
            return false, e, [];
          }
          if !IsConstructed(tag) {
            return false, e, [];
          }
          e := Element(tag, 2, 2);
        } else {
          if count > 4 {
            return false, e, [];
          }
          var okCount, len := header.GetU(count);
          if !okCount {
            return false, e, [];
          }
          assert data[2..][..count] == data[2..2 + count];
          if len < 128 {
            return false, e, [];
          }
          if len < Pow256(count - 1) {
            return false, e, [];
          }
          e := Element(tag, 2 + count, len + 2 + count);
        }
      }
      ok, out := GetBytes(e.total);
    }

    /** CBS_get_asn1 */
    method GetAsn1(tag: byte) returns (ok: bool, contents: seq<byte>)
      modifies this
      ensures ok == TakeAsn1(old(data), tag).Some?
      ensures ok ==> TakeAsn1(old(data), tag) == Some((contents, data))
    {
      var e, out;
      ok, e, out := GetAnyElement(true);
      if !ok || e.tag != tag {
        return false, [];
      }
      contents := out[e.header..];
    }

    /** CBS_get_asn1_uint64 */
    method GetAsn1Uint64() returns (ok: bool, v: nat)
      modifies this
      ensures ok == TakeUint64(old(data)).Some?
      ensures ok ==> TakeUint64(old(data)) == Some((v, data))
    {
      var bytes;
      v := 0;
      ok, bytes := GetAsn1(INTEGER);
      if !ok {
        return;
      }
      if |bytes| == 0 || bytes[0] >= 128 {
        return false, 0;
      }
      if bytes[0] == 0 && |bytes| > 1 && bytes[1] < 128 {
        return false, 0;
      }
      for i := 0 to |bytes|
        invariant v == FromBytes(bytes[..i]) && v < 0x1_0000_0000_0000_0000
      {
        assert bytes[..i + 1][..i] == bytes[..i];
        if v / 0x100_0000_0000_0000 != 0 {
          PrefixTooLarge(bytes, i + 1);
          return false, 0;
        }
        v := v * 256 + bytes[i];
      }
      assert bytes[..|bytes|] == bytes;
    }

    /** CBS_get_optional_asn1 */
    method GetOptional(tag: byte) returns (ok: bool, present: bool, contents: seq<byte>)
      modifies this
      ensures ok == TakeOptional(old(data), tag).Some?
      ensures ok ==> TakeOptional(old(data), tag) == Some((present, contents, data))
    {
      if |data| >= 1 && tag % 32 != 31 && data[0] == tag {
        ok, contents := GetAsn1(tag);
        present := ok;
      } else {
        ok, present, contents := true, false, [];
      }
    }

    /** CBS_get_optional_asn1_octet_string */
    method GetOptionalOctets(tag: byte) returns (ok: bool, present: bool, octets: seq<byte>)
      modifies this
      ensures ok == TakeOptionalOctets(old(data), tag).Some?
      ensures ok ==> TakeOptionalOctets(old(data), tag) == Some((present, octets, data))
    {
      var contents;
      octets := [];
      ok, present, contents := GetOptional(tag);
      if !ok {
        return;
      }
      if present {
        var child := new Cbs(contents);
        ok, octets := child.GetAsn1(OCTETSTRING);
        ok := ok && |child.data| == 0;
      }
    }

    /** CBS_get_optional_asn1_uint64 */
    method GetOptionalUint64(tag: byte, default: nat) returns (ok: bool, v: nat)
      modifies this
      ensures ok == TakeOptionalUint64(old(data), tag, default).Some?
      ensures ok ==> TakeOptionalUint64(old(data), tag, default) == Some((v, data))
    {
      var present, contents;
      v := default;
      ok, present, contents := GetOptional(tag);
      if !ok {
        return;
      }
      if present {
        var child := new Cbs(contents);
        ok, v := child.GetAsn1Uint64();
        ok := ok && |child.data| == 0;
      }
    }
  }

  /** Once a prefix is too large for 64 bits, so is the whole number. */
  lemma {:induction false} PrefixTooLarge(s: seq<byte>, i: nat)
    requires 1 <= i <= |s| && FromBytes(s[..i - 1]) >= 0x100_0000_0000_0000
    ensures FromBytes(s) >= 0x1_0000_0000_0000_0000
  {
    var front := s[..|s| - 1];
    if i == |s| {
      assert front == s[..i - 1];
    } else {
      assert front[..i - 1] == s[..i - 1];
      PrefixTooLarge(front, i);
    }
  }
}
