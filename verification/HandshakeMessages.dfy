/** DTLS handshake messages, their fragments and the twelve byte header between
    them. Section 4.2.2 of RFC 6347. */
module HandshakeMessages {
  import opened Asn1
  import opened ByteReader

  /** The fields of struct hm_header_st that travel. */
  datatype Header = Header(kind: byte, msgLen: nat, seqNum: nat, fragOff: nat, fragLen: nat)

  predicate FieldsFit(h: Header) {
    h.msgLen < 0x100_0000 && h.seqNum < 0x1_0000 && h.fragOff < 0x100_0000 && h.fragLen < 0x100_0000
  }

  /** A handshake message as the state machine sees it. */
  datatype Message = Message(kind: byte, seqNum: nat, body: seq<byte>)

  predicate MessageFits(m: Message) {
    |m.body| < 0x100_0000 && m.seqNum < 0x1_0000
  }

  /** A fragment as it travels: header and the bytes behind it. */
  datatype Packet = Packet(header: Header, bytes: seq<byte>)

  function EncodeHeader(h: Header): (w: seq<byte>)
    ensures |w| == 12
  {
    [h.kind] + ToBytes(h.msgLen, 3) + ToBytes(h.seqNum, 2) + ToBytes(h.fragOff, 3) + ToBytes(h.fragLen, 3)
  }

  function DecodeHeader(w: seq<byte>): (h: Header)
    requires |w| == 12
    ensures FieldsFit(h)
  {
    FromBytesBound(w[1..4]);
    FromBytesBound(w[4..6]);
    FromBytesBound(w[6..9]);
    FromBytesBound(w[9..12]);
    Pow256Values();
    Header(w[0], FromBytes(w[1..4]), FromBytes(w[4..6]), FromBytes(w[6..9]), FromBytes(w[9..12]))
  }

  /** The header codec: what is written is read back. */
  lemma HeaderWrittenIsRead(h: Header)
    requires FieldsFit(h)
    ensures DecodeHeader(EncodeHeader(h)) == h
  {
    Pow256Values();
    WrittenIsRead(h.msgLen, 3);
    WrittenIsRead(h.seqNum, 2);
    WrittenIsRead(h.fragOff, 3);
    WrittenIsRead(h.fragLen, 3);
    var w := EncodeHeader(h);
    assert w[1..4] == ToBytes(h.msgLen, 3);
    assert w[4..6] == ToBytes(h.seqNum, 2);
    assert w[6..9] == ToBytes(h.fragOff, 3);
    assert w[9..12] == ToBytes(h.fragLen, 3);
  }

  lemma FiveParts(w: seq<byte>)
    requires |w| == 12
    ensures w == [w[0]] + w[1..4] + w[4..6] + w[6..9] + w[9..12]
  {
  }

  /** And what is read came from no other bytes. */
  lemma HeaderReadIsWritten(w: seq<byte>)
    requires |w| == 12
    ensures EncodeHeader(DecodeHeader(w)) == w
  {
    var a, b, c, d := w[1..4], w[4..6], w[6..9], w[9..12];
    ReadIsWritten(a);
    ReadIsWritten(b);
    ReadIsWritten(c);
    ReadIsWritten(d);
    FiveParts(w);
  }

  function Number2(high: nat, low: nat): nat { 256 * high + low }

  function Number3(high: nat, middle: nat, low: nat): nat { 65536 * high + 256 * middle + low }

  /** The layout by position: the type, then three bytes of message length, two of sequence number, three of fragment
      offset and three of fragment length, most significant first. */
  predicate Laid(w: seq<byte>, h: Header) {
    && |w| >= 12 && w[0] == h.kind
    && Number3(w[1], w[2], w[3]) == h.msgLen
    && Number2(w[4], w[5]) == h.seqNum
    && Number3(w[6], w[7], w[8]) == h.fragOff
    && Number3(w[9], w[10], w[11]) == h.fragLen
  }

  lemma TwoBytes(s: seq<byte>)
    requires |s| == 2
    ensures FromBytes(s) == Number2(s[0], s[1])
  {
    assert FromBytes(s[..1]) == 256 * FromBytes(s[..1][..0]) + s[0];
  }

  lemma ThreeBytes(s: seq<byte>)
    requires |s| == 3
    ensures FromBytes(s) == Number3(s[0], s[1], s[2])
  {
    TwoBytes(s[..2]);
  }

  /** Decoding goes by the layout. */
  lemma DecodedLaid(w: seq<byte>)
    requires |w| >= 12
    ensures Laid(w, DecodeHeader(w[..12]))
  {
    SameWindows(w);
    ThreeBytes(w[1..4]);
    TwoBytes(w[4..6]);
    ThreeBytes(w[6..9]);
    ThreeBytes(w[9..12]);
  }

  /** So does encoding, of every packet whose header fields fit. */
  lemma PacketLaid(p: Packet)
    requires FieldsFit(p.header)
    ensures Laid(EncodePacket(p), p.header) && EncodePacket(p)[12..] == p.bytes
  {
    HeaderWrittenIsRead(p.header);
    var w := EncodePacket(p);
    assert w[..12] == EncodeHeader(p.header);
    DecodedLaid(w);
  }

  lemma FragmentLaid(m: Message, off: nat, len: nat)
    requires MessageFits(m) && off + len <= |m.body|
    ensures var w := EncodePacket(Fragment(m, off, len));
            Laid(w, Header(m.kind, |m.body|, m.seqNum, off, len)) && w[12..] == m.body[off..off + len]
  {
    PacketLaid(Fragment(m, off, len));
  }

  lemma WholeSlice(s: seq<byte>)
    ensures s[0..|s|] == s
  {
  }

  /** The transcript entry of a message: its header without fragmentation, and its body. */
  lemma RecordedLaid(m: Message)
    requires MessageFits(m)
    ensures Laid(Recorded(m), Header(m.kind, |m.body|, m.seqNum, 0, |m.body|)) && Recorded(m)[12..] == m.body
  {
    FragmentLaid(m, 0, |m.body|);
    WholeSlice(m.body);
  }

  function EncodePacket(p: Packet): seq<byte> {
    EncodeHeader(p.header) + p.bytes
  }

  /** dtls1_get_message_header: five reads from a cursor over the first bytes of a record. */
  method ReadHeader(wire: seq<byte>) returns (ok: bool, h: Header)
    ensures ok == (|wire| >= 12)
    ensures ok ==> h == DecodeHeader(wire[..12]) && Laid(wire, h)
    ensures !ok ==> h == Header(0, 0, 0, 0, 0)
  {
    var header := new Cbs(wire);
    h := Header(0, 0, 0, 0, 0);
    var kind, msgLen, seqNum, fragOff, fragLen;
    ok, kind := header.GetU8();
    if !ok { return; }
    assert header.data == wire[1..];
    ok, msgLen := header.GetU(3);
    if !ok { return; }
    assert wire[1..][..3] == wire[1..4] && header.data == wire[4..];
    ok, seqNum := header.GetU(2);
    if !ok { return; }
    assert wire[4..][..2] == wire[4..6] && header.data == wire[6..];
    ok, fragOff := header.GetU(3);
    if !ok { return; }
    assert wire[6..][..3] == wire[6..9] && header.data == wire[9..];
    ok, fragLen := header.GetU(3);
    if !ok { return; }
    assert wire[9..][..3] == wire[9..12];
    SameWindows(wire);
    DecodedLaid(wire);
    h := Header(kind, msgLen, seqNum, fragOff, fragLen);
  }

  lemma SameWindows(wire: seq<byte>)
    requires |wire| >= 12
    ensures var w := wire[..12];
            w[0] == wire[0] && w[1..4] == wire[1..4] && w[4..6] == wire[4..6] && w[6..9] == wire[6..9] && w[9..12] == wire[9..12]
  {
  }

  /** memcpy into a buffer. */
  method Put(buf: array<byte>, at: nat, bytes: seq<byte>)
    requires at + |bytes| <= buf.Length
    modifies buf
    ensures buf[..] == old(buf[..])[..at] + bytes + old(buf[..])[at + |bytes|..]
  {
    ghost var was := buf[..];
    for i := 0 to |bytes|
      invariant buf[..] == was[..at] + bytes[..i] + was[at + i..]
    {
      buf[at + i] := bytes[i];
      assert bytes[..i + 1] == bytes[..i] + [bytes[i]];
    }
    assert bytes[..|bytes|] == bytes;
  }

  /** The bytes `off .. off + len` of a message as a packet. */
  function Fragment(m: Message, off: nat, len: nat): Packet
    requires off + len <= |m.body|
  {
    Packet(Header(m.kind, |m.body|, m.seqNum, off, len), m.body[off..off + len])
  }

  /** A fragment of `m`: correct header, and bytes cut from the body. */
  predicate IsFragment(p: Packet, m: Message) {
    var h := p.header;
    h.fragOff + h.fragLen <= |m.body| && p == Fragment(m, h.fragOff, h.fragLen)
    && (h.fragLen == 0 ==> |m.body| == 0)
  }

  /** Fragments that cover the first `upto` bytes of `m` without gap or overlap. */
  predicate Tiles(ps: seq<Packet>, m: Message, upto: nat)
    decreases |ps|
  {
    if ps == [] then upto == 0
    else
      var last := ps[|ps| - 1];
      IsFragment(last, m) && last.header.fragOff + last.header.fragLen == upto
      && Tiles(ps[..|ps| - 1], m, last.header.fragOff)
  }

  /** The transcript entry of a message: as if sent in one fragment. */
  function Recorded(m: Message): seq<byte> {
    EncodePacket(Fragment(m, 0, |m.body|))
  }

  /** The bytes of a tiling, concatenated, are the covered part of the message. */
  function Joined(ps: seq<Packet>): seq<byte> {
    if ps == [] then [] else Joined(ps[..|ps| - 1]) + ps[|ps| - 1].bytes
  }

  lemma {:induction false} TilesJoin(ps: seq<Packet>, m: Message, upto: nat)
    requires Tiles(ps, m, upto)
    ensures upto <= |m.body| && Joined(ps) == m.body[..upto]
    decreases |ps|
  {
    if ps != [] {
      var last := ps[|ps| - 1];
      TilesJoin(ps[..|ps| - 1], m, last.header.fragOff);
      assert m.body[..upto] == m.body[..last.header.fragOff] + last.bytes;
    }
  }

  lemma {:induction false} TilesAreFragments(ps: seq<Packet>, m: Message, upto: nat, i: nat)
    requires Tiles(ps, m, upto) && i < |ps|
    ensures IsFragment(ps[i], m)
    decreases |ps|
  {
    if i < |ps| - 1 {
      TilesAreFragments(ps[..|ps| - 1], m, ps[|ps| - 1].header.fragOff, i);
    }
  }
}
