/** dtls1_do_write of ssl/d1_both.c: a handshake message leaves its buffer in
    fragments that fit the MTU, each header written over bytes already sent. */
module Fragmentation {
  import opened Asn1
  import opened HandshakeMessages

  datatype ContentType = Handshake | ChangeCipherSpec

  /** What dtls1_write_bytes is given, with the epoch the record layer writes under. */
  datatype Record = Record(content: ContentType, epoch: nat, payload: seq<byte>)

  /** The records of a list of fragments. */
  function Records(ps: seq<Packet>, epoch: nat): (rs: seq<Record>)
    ensures |rs| == |ps|
    ensures forall i :: 0 <= i < |rs| ==> rs[i] == Record(Handshake, epoch, EncodePacket(ps[i]))
  {
    seq(|ps|, i requires 0 <= i < |ps| => Record(Handshake, epoch, EncodePacket(ps[i])))
  }

  /** A record of this payload fits the MTU with its own header and the cipher's overhead. */
  predicate FitsMtu(payload: nat, overhead: nat, mtu: nat) {
    13 + overhead + payload <= mtu
  }

  /** A record of this payload uses the MTU up, together with the bytes that wait in the BIO if they leave room for more
      than a header. */
  predicate FillsMtu(payload: nat, overhead: nat, mtu: nat, pending: nat) {
    13 + overhead + payload + (if pending + overhead + 25 < mtu then pending else 0) == mtu
  }

  /** A buffer of which `done` body bytes were sent: the rest is intact behind the room for a header. */
  predicate RestIntact(buf: seq<byte>, m: Message, done: nat) {
    done <= |m.body| && 12 + |m.body| <= |buf| && buf[12 + done..12 + |m.body|] == m.body[done..]
  }

  lemma HeaderWritten(was: seq<byte>, now: seq<byte>, m: Message, done: nat, h: Header, len: nat)
    requires RestIntact(was, m, done) && done + len <= |m.body|
    requires now == was[..done] + EncodeHeader(h) + was[done + 12..]
    ensures RestIntact(now, m, done)
    ensures now[done..done + 12 + len] == EncodeHeader(h) + m.body[done..done + len]
  {
    var behind := was[done + 12..];
    assert now[done + 12..] == behind;
    assert was[12 + done..12 + |m.body|] == behind[..|m.body| - done];
    assert now[12 + done..12 + |m.body|] == now[done + 12..][..|m.body| - done];
    assert now[done + 12..done + 12 + len] == behind[..|m.body| - done][..len];
    assert m.body[done..][..len] == m.body[done..done + len];
    assert now[done..done + 12] == EncodeHeader(h);
    assert now[done..done + 12 + len] == now[done..done + 12] + now[done + 12..done + 12 + len];
  }

  lemma RestShrinks(buf: seq<byte>, m: Message, done: nat, len: nat)
    requires RestIntact(buf, m, done) && done + len <= |m.body|
    ensures RestIntact(buf, m, done + len)
  {
    var tail := buf[12 + done..12 + |m.body|];
    assert buf[12 + done + len..12 + |m.body|] == tail[len..];
  }

  /** What the transcript gains from the fragment at `off`. */
  function Noted(m: Message, off: nat, len: nat): seq<byte>
    requires off + len <= |m.body|
  {
    (if off == 0 then EncodeHeader(Header(m.kind, |m.body|, m.seqNum, 0, |m.body|)) else []) + m.body[off..off + len]
  }

  /** The transcript of the first `upto` bytes. */
  function NotedTo(m: Message, upto: nat): seq<byte>
    requires upto <= |m.body|
  {
    EncodeHeader(Header(m.kind, |m.body|, m.seqNum, 0, |m.body|)) + m.body[..upto]
  }

  lemma NotedGrows(m: Message, off: nat, len: nat)
    requires off + len <= |m.body|
    ensures off > 0 ==> NotedTo(m, off) + Noted(m, off, len) == NotedTo(m, off + len)
    ensures off == 0 ==> Noted(m, off, len) == NotedTo(m, len)
    ensures NotedTo(m, |m.body|) == Recorded(m)
  {
    assert m.body[..off + len] == m.body[..off] + m.body[off..off + len];
    assert m.body[..|m.body|] == m.body[0..|m.body|];
  }

  /** What the transcript gained up to byte `upto`; nothing before the first fragment or when retransmitting. */
  function NotedSoFar(m: Message, upto: nat, finished: bool, retransmitting: bool): seq<byte>
    requires upto <= |m.body|
  {
    if retransmitting || (upto == 0 && !finished) then [] else NotedTo(m, upto)
  }

  lemma NotedStep(m: Message, off: nat, len: nat, finished: bool, retransmitting: bool, noted: seq<byte>)
    requires off + len <= |m.body| && (finished || off + len > 0)
    ensures noted + NotedSoFar(m, off, false, retransmitting) + (if retransmitting then [] else Noted(m, off, len))
            == noted + NotedSoFar(m, off + len, finished, retransmitting)
  {
    NotedGrows(m, off, len);
    Reassociate(noted, NotedSoFar(m, off, false, retransmitting), Noted(m, off, len));
  }

  /** `wire` is `before` followed by the records of fragments that tile the first `upto` bytes of `m`. */
  predicate Sent(ps: seq<Packet>, m: Message, upto: nat, before: seq<Record>, wire: seq<Record>, epoch: nat) {
    Tiles(ps, m, upto) && wire == before + Records(ps, epoch)
  }

  predicate AllFitMtu(ps: seq<Packet>, overhead: nat, mtu: nat) {
    forall i :: 0 <= i < |ps| ==> FitsMtu(12 + |ps[i].bytes|, overhead, mtu)
  }

  /** The first `n` fragments were not cut shorter than they had to be; `pending(i)` bytes waited before fragment i. */
  predicate AllFill(ps: seq<Packet>, n: nat, overhead: nat, mtu: nat, pending: nat -> nat) {
    n <= |ps| && forall i :: 0 <= i < n ==> FillsMtu(12 + |ps[i].bytes|, overhead, mtu, pending(i))
  }

  /** A record as the peer sees it, byte by byte: the header of a fragment of `m`, and the bytes of `m` at that offset. */
  predicate Frames(payload: seq<byte>, m: Message, off: nat, len: nat) {
    && Laid(payload, Header(m.kind, |m.body|, m.seqNum, off, len))
    && off + len <= |m.body| && payload[12..] == m.body[off..off + len]
  }

  /** The records behind the first `from` carry the fragments of `m`. */
  predicate AllFramed(ps: seq<Packet>, m: Message, wire: seq<Record>, from: nat) {
    && from + |ps| == |wire|
    && forall i :: 0 <= i < |ps| ==> Frames(wire[from + i].payload, m, ps[i].header.fragOff, ps[i].header.fragLen)
  }

  lemma SentFramed(ps: seq<Packet>, m: Message, before: seq<Record>, wire: seq<Record>, epoch: nat)
    requires Sent(ps, m, |m.body|, before, wire, epoch) && MessageFits(m)
    ensures AllFramed(ps, m, wire, |before|)
  {
    forall i | 0 <= i < |ps|
      ensures Frames(wire[|before| + i].payload, m, ps[i].header.fragOff, ps[i].header.fragLen)
    {
      TilesAreFragments(ps, m, |m.body|, i);
      FragmentLaid(m, ps[i].header.fragOff, ps[i].header.fragLen);
    }
  }

  class Sender {
    const initBuf: array<byte>
    var initOff: nat
    var initNum: nat
    /** w_msg_hdr */
    var header: Header
    var mtu: nat
    var overhead: nat
    var retransmitting: bool
    /** The epoch the record layer writes under. */
    var layerEpoch: nat
    var wire: seq<Record>
    var transcript: seq<byte>
    /** d1->w_epoch and s->session, which retransmission switches. */
    var writeEpoch: nat
    var session: nat

    constructor (size: nat, mtu: nat, overhead: nat)
      ensures fresh(initBuf) && initBuf.Length == size && this.mtu == mtu && this.overhead == overhead
      ensures initOff == 0 && initNum == 0 && !retransmitting && wire == [] && transcript == []
      ensures layerEpoch == writeEpoch == session == 0
    {
      initBuf := new byte[size];
      initOff, initNum := 0, 0;
      header := Header(0, 0, 0, 0, 0);
      this.mtu, this.overhead := mtu, overhead;
      retransmitting := false;
      layerEpoch, writeEpoch, session := 0, 0, 0;
      wire, transcript := [], [];
    }

    /** `done` body bytes of `m` have left. */
    ghost predicate Sending(m: Message, done: nat)
      reads this`header, this`initOff, this`initNum, initBuf
    {
      header.kind == m.kind && header.msgLen == |m.body| && header.seqNum == m.seqNum
      && RestIntact(initBuf[..], m, done)
      && (done == 0 ==> initOff == 0 && initNum == 12 + |m.body|)
      && (done > 0 ==> done < |m.body| && initOff == 12 + done && initNum == |m.body| - done)
    }

    /** A serialised message stands in the buffer behind the room for its header. */
    method Load(m: Message)
      requires 12 + |m.body| <= initBuf.Length
      modifies this`initOff, this`initNum, this`header, initBuf
      ensures Sending(m, 0)
    {
      ghost var was := initBuf[..];
      Put(initBuf, 12, m.body);
      assert initBuf[..][12..12 + |m.body|] == m.body == m.body[0..];
      initOff, initNum := 0, 12 + |m.body|;
      header := Header(m.kind, |m.body|, m.seqNum, 0, |m.body|);
    }

    /** The MTU is looked up while it is too small to be plausible. */
    method SettleMtu(mayQuery: bool, queried: nat)
      requires mtu >= 228 || mayQuery
      modifies this`mtu
      ensures mtu >= 228
      ensures mtu == if old(mtu) >= 228 then old(mtu) else if queried >= 228 then queried else 1472
    {
      if mtu < 228 && mayQuery {
        mtu := queried;
        if mtu < 228 {
          mtu := 1472;
        }
      }
    }

    /** How much payload the next record may carry; `pending` bytes wait in the BIO. */
    method CurrentMtu(pending: nat) returns (currMtu: nat)
      requires overhead + 25 < mtu
      ensures 12 < currMtu && FitsMtu(currMtu, overhead, mtu) && FillsMtu(currMtu, overhead, mtu, pending)
    {
      var room := mtu - pending - 13 - overhead;
      if room <= 12 {
        room := mtu - 13 - overhead;
      }
      currMtu := room;
    }

    /** The size of the next fragment; a later one takes twelve bytes back for its header. */
    method NextSize(pending: nat, ghost m: Message, ghost done: nat) returns (size: nat)
      requires Sending(m, done) && overhead + 25 < mtu
      modifies this`initOff, this`initNum
      ensures 12 <= size && done + (size - 12) <= |m.body| && (size == 12 ==> |m.body| == 0)
      ensures FitsMtu(size, overhead, mtu) && (done + (size - 12) < |m.body| ==> FillsMtu(size, overhead, mtu, pending))
      ensures initOff == done && initNum == 12 + |m.body| - done
    {
      var currMtu := CurrentMtu(pending);
      size := if initNum > currMtu then currMtu else initNum;
      if initOff != 0 {
        assert initOff > 12;
        initOff := initOff - 12;
        initNum := initNum + 12;
        size := if initNum > currMtu then currMtu else initNum;
      }
    }

    /** The next fragment gets its header, over the last bytes sent before it. */
    method PlaceHeader(fragOff: nat, size: nat, ghost m: Message)
      requires RestIntact(initBuf[..], m, fragOff) && initOff == fragOff && 12 <= size && fragOff + (size - 12) <= |m.body|
      requires header.kind == m.kind && header.msgLen == |m.body| && header.seqNum == m.seqNum
      modifies this`header, initBuf
      ensures header == Header(m.kind, |m.body|, m.seqNum, fragOff, size - 12)
      ensures RestIntact(initBuf[..], m, fragOff)
      ensures initBuf[..][fragOff..fragOff + size] == EncodePacket(Fragment(m, fragOff, size - 12))
    {
      header := header.(fragOff := fragOff, fragLen := size - 12);
      ghost var was := initBuf[..];
      Put(initBuf, initOff, EncodeHeader(header));
      HeaderWritten(was, initBuf[..], m, fragOff, header, size - 12);
    }

    /** One turn of the loop for a handshake message. */
    method SendFragment(pending: nat, fragOff: nat, ghost m: Message) returns (finished: bool, len: nat)
      requires Sending(m, fragOff) && overhead + 25 < mtu
      modifies this`initOff, this`initNum, this`header, this`wire, this`transcript, initBuf
      ensures fragOff + len <= |m.body| && IsFragment(Fragment(m, fragOff, len), m)
      ensures wire == old(wire) + [Record(Handshake, layerEpoch, EncodePacket(Fragment(m, fragOff, len)))]
      ensures FitsMtu(12 + len, overhead, mtu)
      ensures transcript == old(transcript) + if retransmitting then [] else Noted(m, fragOff, len)
      ensures finished == (fragOff + len == |m.body|)
      ensures finished ==> initOff == 0 && initNum == 0
      ensures !finished ==> len > 0 && Sending(m, fragOff + len) && FillsMtu(12 + len, overhead, mtu, pending)
    {
      var size := NextSize(pending, m, fragOff);
      len := size - 12;
      PlaceHeader(fragOff, size, m);
      wire := wire + [Record(Handshake, layerEpoch, initBuf[..][initOff..initOff + size])];
      if !retransmitting {
        NoteFragment(fragOff, len, m);
      } else {
        assert transcript == old(transcript) + [];
      }
      finished := Skip(size, fragOff, m);
    }

    /** The buffer after a record of `size` bytes has left. */
    method Skip(size: nat, fragOff: nat, ghost m: Message) returns (finished: bool)
      requires RestIntact(initBuf[..], m, fragOff) && 12 <= size && fragOff + (size - 12) <= |m.body| && (size == 12 ==> |m.body| == 0)
      requires header.kind == m.kind && header.msgLen == |m.body| && header.seqNum == m.seqNum
      requires initOff == fragOff && initNum == 12 + |m.body| - fragOff
      modifies this`initOff, this`initNum
      ensures finished == (fragOff + (size - 12) == |m.body|)
      ensures finished ==> initOff == 0 && initNum == 0
      ensures !finished ==> Sending(m, fragOff + (size - 12))
    {
      RestShrinks(initBuf[..], m, fragOff, size - 12);
      if size == initNum {
        initOff, initNum := 0, 0;
        finished := true;
      } else {
        initOff := initOff + size;
        initNum := initNum - size;
        finished := false;
      }
    }

    /** tls1_transcript_record for one fragment, as if the message were not fragmented. */
    method NoteFragment(fragOff: nat, len: nat, ghost m: Message)
      requires fragOff + len <= |m.body| && initOff == fragOff && RestIntact(initBuf[..], m, fragOff)
      requires header.kind == m.kind && header.msgLen == |m.body| && header.seqNum == m.seqNum
      modifies this`transcript, initBuf
      ensures RestIntact(initBuf[..], m, fragOff)
      ensures transcript == old(transcript) + Noted(m, fragOff, len)
    {
      ghost var was := initBuf[..];
      if fragOff == 0 {
        var whole := header.(fragOff := 0, fragLen := header.msgLen);
        Put(initBuf, initOff, EncodeHeader(whole));
        HeaderWritten(was, initBuf[..], m, fragOff, whole, len);
        transcript := transcript + initBuf[initOff..initOff + 12 + len];
      } else {
        ghost var tail := was[12 + fragOff..12 + |m.body|];
        assert was[12 + fragOff..12 + fragOff + len] == tail[..len];
        assert tail[..len] == m.body[fragOff..fragOff + len];
        assert Noted(m, fragOff, len) == m.body[fragOff..fragOff + len];
        transcript := transcript + initBuf[initOff + 12..initOff + 12 + len];
      }
    }

    /** One turn of the loop, in terms of all fragments so far. */
    method Turn(pending: nat -> nat, turn: nat, fragOff: nat, ghost ps: seq<Packet>, ghost m: Message, ghost sent: seq<Record>, ghost noted: seq<byte>)
        returns (finished: bool, len: nat, ghost ps': seq<Packet>)
      requires Sending(m, fragOff) && overhead + 25 < mtu
      requires Sent(ps, m, fragOff, sent, wire, layerEpoch) && AllFitMtu(ps, overhead, mtu)
      requires turn == |ps| && AllFill(ps, |ps|, overhead, mtu, pending)
      requires transcript == noted + NotedSoFar(m, fragOff, false, retransmitting)
      modifies this`initOff, this`initNum, this`header, this`wire, this`transcript, initBuf
      ensures fragOff + len <= |m.body| && finished == (fragOff + len == |m.body|) && |ps'| == turn + 1
      ensures AllFill(ps', if finished then turn else turn + 1, overhead, mtu, pending)
      ensures Sent(ps', m, fragOff + len, sent, wire, layerEpoch) && AllFitMtu(ps', overhead, mtu)
      ensures transcript == noted + NotedSoFar(m, fragOff + len, finished, retransmitting)
      ensures finished ==> initOff == 0 && initNum == 0
      ensures !finished ==> len > 0 && Sending(m, fragOff + len)
    {
      finished, len := SendFragment(pending(turn), fragOff, m);
      ghost var p := Fragment(m, fragOff, len);
      Lengthen(ps, p, m, fragOff, sent, layerEpoch, overhead, mtu);
      FillNext(ps, p, overhead, mtu, pending, finished);
      NotedStep(m, fragOff, len, finished, retransmitting, noted);
      ps' := ps + [p];
    }

    /** dtls1_do_write for a handshake message: the fragments tile the message, each fits the MTU, all but the last fill it,
        and the transcript gains the message as if sent whole. `pending(i)` bytes wait before turn i. */
    method WriteMessage(mayQuery: bool, queried: nat, pending: nat -> nat, ghost m: Message) returns (ghost ps: seq<Packet>)
      requires Sending(m, 0) && overhead < 203 && (mtu >= 228 || mayQuery)
      modifies this`initOff, this`initNum, this`header, this`wire, this`transcript, this`mtu, initBuf
      ensures ps != [] && Sent(ps, m, |m.body|, old(wire), wire, layerEpoch)
      ensures MessageFits(m) ==> AllFramed(ps, m, wire, |old(wire)|)
      ensures AllFitMtu(ps, overhead, mtu) && AllFill(ps, |ps| - 1, overhead, mtu, pending)
      ensures transcript == old(transcript) + if retransmitting then [] else Recorded(m)
      ensures initOff == 0 && initNum == 0 && mtu >= 228
    {
      SettleMtu(mayQuery, queried);
      ps := [];
      var fragOff: nat, turn: nat, finished := 0, 0, false;
      while !finished
        invariant mtu >= 228
        invariant fragOff <= |m.body| && Sent(ps, m, fragOff, old(wire), wire, layerEpoch) && AllFitMtu(ps, overhead, mtu)
        invariant turn == |ps| && (finished ==> turn > 0) && AllFill(ps, if finished then turn - 1 else turn, overhead, mtu, pending)
        invariant transcript == old(transcript) + NotedSoFar(m, fragOff, finished, retransmitting)
        invariant !finished ==> Sending(m, fragOff)
        invariant finished ==> fragOff == |m.body| && ps != [] && initOff == 0 && initNum == 0
        decreases !finished, |m.body| - fragOff
      {
        var len;
        finished, len, ps := Turn(pending, turn, fragOff, ps, m, old(wire), old(transcript));
        fragOff, turn := fragOff + len, turn + 1;
      }
      NotedGrows(m, 0, 0);
      if MessageFits(m) {
        SentFramed(ps, m, old(wire), wire, layerEpoch);
      }
    }

    /** dtls1_do_write for a ChangeCipherSpec, whose one byte has no header. */
    method WriteChangeCipherSpec(mayQuery: bool, queried: nat, pending: nat)
      requires initOff == 0 && initNum == 1 && initBuf.Length >= 1
      requires overhead < 203 && (mtu >= 228 || mayQuery)
      modifies this`initOff, this`initNum, this`wire, this`mtu
      ensures wire == old(wire) + [Record(ChangeCipherSpec, layerEpoch, [initBuf[0]])]
      ensures initOff == 0 && initNum == 0 && mtu >= 228
    {
      SettleMtu(mayQuery, queried);
      var currMtu := CurrentMtu(pending);
      var len := if initNum > currMtu then currMtu else initNum;
      assert initBuf[initOff..initOff + len] == [initBuf[0]];
      wire := wire + [Record(ChangeCipherSpec, layerEpoch, initBuf[initOff..initOff + len])];
      initOff, initNum := 0, 0;
    }
  }

  lemma Lengthen(ps: seq<Packet>, p: Packet, m: Message, upto: nat, sent: seq<Record>, epoch: nat, overhead: nat, mtu: nat)
    requires Tiles(ps, m, upto) && IsFragment(p, m) && p.header.fragOff == upto
    requires AllFitMtu(ps, overhead, mtu) && FitsMtu(12 + |p.bytes|, overhead, mtu)
    ensures Tiles(ps + [p], m, upto + p.header.fragLen)
    ensures AllFitMtu(ps + [p], overhead, mtu)
    ensures sent + Records(ps + [p], epoch) == sent + Records(ps, epoch) + [Record(Handshake, epoch, EncodePacket(p))]
  {
    assert (ps + [p])[..|ps|] == ps;
    assert Records(ps + [p], epoch) == Records(ps, epoch) + [Record(Handshake, epoch, EncodePacket(p))];
  }

  lemma FillNext(ps: seq<Packet>, p: Packet, overhead: nat, mtu: nat, pending: nat -> nat, last: bool)
    requires AllFill(ps, |ps|, overhead, mtu, pending) && (last || FillsMtu(12 + |p.bytes|, overhead, mtu, pending(|ps|)))
    ensures AllFill(ps + [p], if last then |ps| else |ps| + 1, overhead, mtu, pending)
  {
  }

  lemma Reassociate(a: seq<byte>, b: seq<byte>, c: seq<byte>)
    ensures (a + b) + c == a + (b + c)
  {
  }
}
