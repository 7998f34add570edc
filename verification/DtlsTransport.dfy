/** Both halves of ssl/d1_both.c end to end: a flight is fragmented, the network
    loses, repeats and reorders fragments of several fragmentations, and the
    receiver hands over exactly the messages sent, in order. */
module DtlsTransport {
  import opened Asn1
  import opened HandshakeMessages
  import opened Fragmentation
  import opened Reassembly
  import opened HandshakeRuns
  import opened HandshakeReceiver

  /** The transcript of a list of messages. */
  function Transcript(ms: seq<Message>): seq<byte> {
    if ms == [] then [] else Transcript(ms[..|ms| - 1]) + Recorded(ms[|ms| - 1])
  }

  lemma {:induction false} TranscriptPrefix(ms: seq<Message>, n: nat)
    requires n <= |ms|
    ensures Transcript(ms[..n]) <= Transcript(ms)
  {
    if n < |ms| {
      var front := ms[..|ms| - 1];
      TranscriptPrefix(front, n);
      assert front[..n] == ms[..n];
    } else {
      assert ms[..n] == ms;
    }
  }

  // ---------- receiving a whole run ----------

  /** One call of dtls1_get_message within a run. */
  method ReceiveOne(r: Receiver, u: Setup, delivered: seq<Message>) returns (o: Outcome, delivered': seq<Message>)
    requires r.Valid() && AllWhole(r.incoming) && r.transcript == Transcript(delivered)
    requires r.server == u.server && r.maxLen == u.maxLen
    modifies r, r.queue, r.queue.list`next, r.pool
    ensures r.Valid() && r.Fresh() && AllWhole(r.incoming) && r.transcript == Transcript(delivered')
    ensures delivered + Run(old(r.View()), u, old(r.incoming)).delivered == delivered' + Left(r.View(), u, r.incoming, o.Delivered?)
    ensures o.Delivered? ==> |r.incoming| < |old(r.incoming)| || (r.incoming == old(r.incoming) && |r.buffered| < |old(r.buffered)|)
  {
    ghost var s, input := r.View(), r.incoming;
    GetMessageShrinks(s, At(u, s.expected), input);
    RunByCalls(s, u, input);
    o := r.ReceiveMessage(u.limit(r.expected));
    delivered' := delivered;
    if o.Delivered? {
      delivered' := delivered + [o.message];
      assert delivered'[..|delivered|] == delivered;
      Regroup(delivered, o.message, Run(r.View(), u, r.incoming).delivered);
    }
  }

  /** What a run that goes on will hand over. */
  function Left(s: State, u: Setup, input: seq<Packet>, more: bool): seq<Message>
    requires AllWhole(input)
  {
    if more then Run(s, u, input).delivered else []
  }

  lemma Regroup(a: seq<Message>, m: Message, b: seq<Message>)
    ensures a + ([m] + b) == a + [m] + b
  {
  }

  /** Calls of dtls1_get_message until one does not hand over a message: the messages are those of the run on values. */
  method ReceiveRun(u: Setup, incoming: seq<Packet>) returns (delivered: seq<Message>, transcript: seq<byte>)
    requires AllWhole(incoming)
    ensures delivered == Run(Start(), u, incoming).delivered && transcript == Transcript(delivered)
  {
    var r := new Receiver(u.server, u.maxLen, incoming);
    delivered := [];
    var more := true;
    while more
      invariant r.Valid() && fresh(r) && fresh(r.queue) && fresh(r.pool) && r.server == u.server && r.maxLen == u.maxLen
      invariant forall i :: 0 <= i < |r.queue.list| ==> fresh(r.queue.list[i])
      invariant AllWhole(r.incoming) && r.transcript == Transcript(delivered)
      invariant Run(Start(), u, incoming).delivered == delivered + Left(r.View(), u, r.incoming, more)
      decreases more, |r.incoming|, |r.buffered|
    {
      var o;
      o, delivered := ReceiveOne(r, u, delivered);
      more := o.Delivered?;
    }
    transcript := r.transcript;
  }

  /** Arrivals that lose nothing: no message both whole and in part, and all fragments in time. */
  predicate Orderly(incoming: seq<Packet>, msgs: seq<Message>) {
    Unmixed(incoming) && Punctual([], incoming, msgs)
  }

  /** How far the delivery of acceptable messages goes: exactly as far as the arrivals reach, and if they are orderly
      exactly as far as they bring every byte. */
  predicate Reached(incoming: seq<Packet>, msgs: seq<Message>, delivered: seq<Message>) {
    var n := Reach([], incoming, msgs);
    && n <= |msgs| && delivered == msgs[..n] && (delivered == msgs <==> n == |msgs|)
    && (delivered == msgs ==> AllBrought(incoming, msgs))
    && (Orderly(incoming, msgs) ==> n == Lead(incoming, msgs, 0) && (delivered == msgs <==> AllBrought(incoming, msgs)))
  }

  /** A whole run. Whatever arrives, the messages handed over are numbered 0, 1, 2, ...; if all of it was cut from
      `msgs`, they are `msgs` in order; if these are acceptable, the arrivals alone decide how many. */
  method ReceiveAll(u: Setup, incoming: seq<Packet>, ghost msgs: seq<Message>) returns (delivered: seq<Message>, transcript: seq<byte>)
    requires AllWhole(incoming)
    ensures transcript == Transcript(delivered) && delivered == Run(Start(), u, incoming).delivered
    ensures forall i :: 0 <= i < |delivered| ==> delivered[i].seqNum == i
    ensures Flight(msgs) && HonestInput(incoming, msgs) ==> delivered <= msgs && transcript <= Transcript(msgs)
    ensures Flight(msgs) && HonestInput(incoming, msgs) && AllAcceptable(msgs, u) ==> Reached(incoming, msgs, delivered)
  {
    delivered, transcript := ReceiveRun(u, incoming);
    RunInSequence(Start(), u, incoming);
    ghost var honest := Flight(msgs) && HonestInput(incoming, msgs);
    if honest {
      RunFaithful(Start(), u, incoming, msgs);
      assert msgs[0..|delivered|] == msgs[..|delivered|] == delivered;
      TranscriptPrefix(msgs, |delivered|);
    }
    if honest && AllAcceptable(msgs, u) {
      RunReached(u, incoming, msgs);
    }
  }

  lemma RunReached(u: Setup, incoming: seq<Packet>, msgs: seq<Message>)
    requires Flight(msgs) && AllAcceptable(msgs, u) && AllWhole(incoming) && HonestInput(incoming, msgs)
    ensures Reached(incoming, msgs, Run(Start(), u, incoming).delivered)
  {
    RunReaches(u, incoming, msgs);
    if Run(Start(), u, incoming).delivered == msgs {
      forall k | 0 <= k < |msgs|
        ensures Has(incoming, msgs[k], k)
      {
        ReachBrought([], incoming, msgs, k);
        assert [] + incoming == incoming;
      }
    }
    if Orderly(incoming, msgs) {
      RunCompletes(u, incoming, msgs);
    }
  }

  // ---------- sending ----------

  /** Every packet is a fragment of one of the messages. */
  lemma TilesHonest(ps: seq<Packet>, msgs: seq<Message>, k: nat)
    requires Flight(msgs) && k < |msgs| && Tiles(ps, msgs[k], |msgs[k].body|)
    ensures HonestInput(ps, msgs)
  {
    forall i | 0 <= i < |ps|
      ensures Honest(ps[i], msgs)
    {
      TilesAreFragments(ps, msgs[k], |msgs[k].body|, i);
    }
  }

  /** A tiling ends where it says. */
  lemma {:induction false} TilesEnd(ps: seq<Packet>, m: Message, upto: nat, p: Packet)
    requires Tiles(ps, m, upto) && p in ps
    ensures IsFragment(p, m) && p.header.fragOff + p.header.fragLen <= upto
    decreases |ps|
  {
    var front, last := ps[..|ps| - 1], ps[|ps| - 1];
    assert ps == front + [last];
    if p != last {
      TilesEnd(front, m, last.header.fragOff, p);
    }
  }

  /** The fragments of one pass are all whole, or none is. */
  lemma TilesUnmixed(ps: seq<Packet>, m: Message, p: Packet, q: Packet)
    requires Tiles(ps, m, |m.body|) && p in ps && q in ps && IsWhole(p)
    ensures IsWhole(q)
  {
    TilesEnd(ps, m, |m.body|, p);
    TilesEnd(ps, m, |m.body|, q);
    if m.body != [] && p != q {
      var front, last := ps[..|ps| - 1], ps[|ps| - 1];
      assert ps == front + [last];
      if p in front {
        TilesEnd(front, m, last.header.fragOff, p);
      } else {
        TilesEnd(front, m, last.header.fragOff, q);
      }
    }
  }

  /** A tiling brings every byte up to its end. */
  lemma {:induction false} TilesBring(ps: seq<Packet>, m: Message, upto: nat, x: nat)
    requires Tiles(ps, m, upto) && x < upto
    ensures x in Coverage(ps, m.seqNum)
    decreases |ps|
  {
    var front, last := ps[..|ps| - 1], ps[|ps| - 1];
    assert ps == front + [last];
    CoverageAppend(front, last, m.seqNum);
    if x < last.header.fragOff {
      TilesBring(front, m, last.header.fragOff, x);
    }
  }

  lemma TilesHave(ps: seq<Packet>, m: Message)
    requires Tiles(ps, m, |m.body|) && ps != []
    ensures Has(ps, m, m.seqNum)
  {
    TilesEnd(ps, m, |m.body|, ps[0]);
    forall x: nat | x < |m.body|
      ensures x in Coverage(ps, m.seqNum)
    {
      TilesBring(ps, m, |m.body|, x);
    }
  }

  /** One pass over the first `n` messages: unmixed, and every message is there. */
  predicate OnePass(ps: seq<Packet>, msgs: seq<Message>, n: nat)
    requires n <= |msgs|
  {
    Unmixed(ps) && (forall p :: p in ps ==> p.header.seqNum < n) && (forall k :: 0 <= k < n ==> Has(ps, msgs[k], k))
  }

  lemma PassGrows(ps: seq<Packet>, more: seq<Packet>, msgs: seq<Message>, n: nat)
    requires Flight(msgs) && n < |msgs| && OnePass(ps, msgs, n) && Tiles(more, msgs[n], |msgs[n].body|) && more != []
    ensures OnePass(ps + more, msgs, n + 1)
  {
    forall p | p in more
      ensures p.header.seqNum == n
    {
      TilesEnd(more, msgs[n], |msgs[n].body|, p);
    }
    forall p, q | p in ps + more && q in ps + more && p.header.seqNum == q.header.seqNum
      ensures IsWhole(p) <==> IsWhole(q)
    {
      if p in more && q in more {
        if IsWhole(p) { TilesUnmixed(more, msgs[n], p, q); }
        if IsWhole(q) { TilesUnmixed(more, msgs[n], q, p); }
      }
    }
    TilesHave(more, msgs[n]);
    forall k | 0 <= k < n + 1
      ensures Has(ps + more, msgs[k], k)
    {
      HasInMore(if k < n then ps else more, ps + more, msgs[k], k);
    }
  }

  /** What a sender cut, oldest first: the fragments of one message after those before them. */
  datatype Cuts = Nothing | Then(earlier: Cuts, ps: seq<Packet>)

  function Packets(c: Cuts): seq<Packet> {
    match c
    case Nothing => []
    case Then(earlier, ps) => Packets(earlier) + ps
  }

  /** One fragmentation of the first `n` messages, in order. */
  ghost predicate Pass(c: Cuts, msgs: seq<Message>, n: nat)
    requires n <= |msgs|
  {
    match c
    case Nothing => n == 0
    case Then(earlier, ps) => n > 0 && ps != [] && Tiles(ps, msgs[n - 1], |msgs[n - 1].body|) && Pass(earlier, msgs, n - 1)
  }

  lemma {:induction false} PassFacts(c: Cuts, msgs: seq<Message>, n: nat)
    requires Flight(msgs) && n <= |msgs| && Pass(c, msgs, n)
    ensures HonestInput(Packets(c), msgs) && OnePass(Packets(c), msgs, n)
  {
    match c
    case Nothing =>
    case Then(earlier, ps) =>
      PassFacts(earlier, msgs, n - 1);
      TilesHonest(ps, msgs, n - 1);
      HonestBoth(Packets(earlier), ps, msgs);
      PassGrows(Packets(earlier), ps, msgs, n - 1);
  }

  lemma HonestBoth(a: seq<Packet>, b: seq<Packet>, msgs: seq<Message>)
    requires HonestInput(a, msgs) && HonestInput(b, msgs)
    ensures HonestInput(a + b, msgs)
  {
  }

  /** Every time the flight was sent, oldest first. */
  datatype Passes = Never | Again(before: Passes, last: Cuts)

  function Times(x: Passes): nat {
    match x
    case Never => 0
    case Again(before, _) => Times(before) + 1
  }

  function SentPackets(x: Passes): seq<Packet> {
    match x
    case Never => []
    case Again(before, last) => SentPackets(before) + Packets(last)
  }

  /** Each time the whole flight was sent, fragmented anew. */
  ghost predicate AllPasses(x: Passes, msgs: seq<Message>) {
    match x
    case Never => true
    case Again(before, last) => Pass(last, msgs, |msgs|) && AllPasses(before, msgs)
  }

  /** What the passes put on the wire: fragments of the messages, every message whole, and after one pass no message
      both whole and in part. */
  lemma {:induction false} PassesFacts(x: Passes, msgs: seq<Message>)
    requires Flight(msgs) && AllPasses(x, msgs)
    ensures HonestInput(SentPackets(x), msgs)
    ensures (Times(x) > 0 ==> AllBrought(SentPackets(x), msgs)) && (Times(x) == 1 ==> Unmixed(SentPackets(x)))
  {
    match x
    case Never =>
    case Again(before, last) =>
      var a, b := SentPackets(before), Packets(last);
      PassesFacts(before, msgs);
      PassFacts(last, msgs, |msgs|);
      HonestBoth(a, b, msgs);
      BroughtInMore(b, a + b, msgs);
      if before.Never? {
        assert a + b == b;
      }
  }

  lemma RecordsAppend(sent: seq<Record>, a: seq<Packet>, b: seq<Packet>, epoch: nat)
    ensures sent + Records(a, epoch) + Records(b, epoch) == sent + Records(a + b, epoch)
  {
    assert Records(a + b, epoch) == Records(a, epoch) + Records(b, epoch);
  }

  /** What the wire and the transcript gained by sending `c`, the fragments of the first `n` messages. */
  ghost predicate SentSoFar(s: Sender, msgs: seq<Message>, n: nat, c: Cuts, sent: seq<Record>, noted: seq<byte>)
    requires n <= |msgs|
    reads s`wire, s`layerEpoch, s`transcript, s`retransmitting
  {
    Pass(c, msgs, n) && s.wire == sent + Records(Packets(c), s.layerEpoch)
    && s.transcript == noted + if s.retransmitting then [] else Transcript(msgs[..n])
  }

  method SendOne(s: Sender, msgs: seq<Message>, i: nat, pending: nat -> nat, ghost c: Cuts, ghost sent: seq<Record>, ghost noted: seq<byte>)
      returns (ghost c': Cuts)
    requires i < |msgs| && s.overhead < 203 && s.mtu >= 228 && 12 + |msgs[i].body| <= s.initBuf.Length
    requires SentSoFar(s, msgs, i, c, sent, noted)
    modifies s`initOff, s`initNum, s`header, s`wire, s`transcript, s`mtu, s.initBuf
    ensures SentSoFar(s, msgs, i + 1, c', sent, noted) && s.mtu >= 228
  {
    var m := msgs[i];
    s.Load(m);
    ghost var ps := s.WriteMessage(false, 0, pending, m);
    c' := Then(c, ps);
    RecordsAppend(sent, Packets(c), ps, s.layerEpoch);
    TranscriptStep(noted, msgs, i, s.retransmitting);
  }

  lemma TranscriptStep(noted: seq<byte>, msgs: seq<Message>, i: nat, silent: bool)
    requires i < |msgs|
    ensures noted + (if silent then [] else Transcript(msgs[..i])) + (if silent then [] else Recorded(msgs[i]))
            == noted + if silent then [] else Transcript(msgs[..i + 1])
  {
    assert msgs[..i + 1][..i] == msgs[..i];
  }

  /** One pass over the flight: every record carries a fragment of one of its messages. */
  method SendFlight(s: Sender, msgs: seq<Message>, pending: (nat, nat) -> nat) returns (ghost c: Cuts)
    requires s.overhead < 203 && s.mtu >= 228
    requires forall i :: 0 <= i < |msgs| ==> 12 + |msgs[i].body| <= s.initBuf.Length
    modifies s`initOff, s`initNum, s`header, s`wire, s`transcript, s`mtu, s.initBuf
    ensures Pass(c, msgs, |msgs|) && s.wire == old(s.wire) + Records(Packets(c), s.layerEpoch)
    ensures s.transcript == old(s.transcript) + if s.retransmitting then [] else Transcript(msgs)
    ensures s.mtu >= 228
  {
    c := Nothing;
    ghost var sent, noted := s.wire, s.transcript;
    assert sent + Records([], s.layerEpoch) == sent;
    for i := 0 to |msgs|
      invariant s.mtu >= 228
      invariant SentSoFar(s, msgs, i, c, sent, noted)
    {
      c := SendOne(s, msgs, i, turn => pending(i, turn), c, sent, noted);
    }
    assert msgs[..|msgs|] == msgs;
  }

  /** A pass under another MTU that leaves the transcript alone. */
  method Resend(s: Sender, msgs: seq<Message>, mtu: nat, pending: (nat, nat) -> nat, ghost x: Passes)
      returns (ghost x': Passes)
    requires s.overhead < 203 && mtu >= 228 && s.retransmitting && s.layerEpoch == 0
    requires forall i :: 0 <= i < |msgs| ==> 12 + |msgs[i].body| <= s.initBuf.Length
    requires AllPasses(x, msgs) && s.wire == Records(SentPackets(x), 0)
    modifies s`initOff, s`initNum, s`header, s`wire, s`transcript, s`mtu, s.initBuf
    ensures AllPasses(x', msgs) && Times(x') == Times(x) + 1 && s.wire == Records(SentPackets(x'), 0)
    ensures s.transcript == old(s.transcript)
  {
    s.mtu := mtu;
    ghost var c := SendFlight(s, msgs, pending);
    RecordsAppend([], SentPackets(x), Packets(c), 0);
    x' := Again(x, c);
  }

  lemma BroughtInMore(a: seq<Packet>, b: seq<Packet>, msgs: seq<Message>)
    requires AllBrought(a, msgs) && forall p :: p in a ==> p in b
    ensures AllBrought(b, msgs)
  {
    forall k | 0 <= k < |msgs|
      ensures Has(b, msgs[k], k)
    {
      HasInMore(a, b, msgs[k], k);
    }
  }

  /** The first pass and the passes of later timeouts, each under its own MTU: the wire carries a fragmentation of the
      whole flight per pass, and the transcript records the flight once. */
  method SendAll(msgs: seq<Message>, overhead: nat, mtus: seq<nat>, pending: (nat, nat) -> nat)
      returns (wire: seq<Record>, transcript: seq<byte>, ghost x: Passes)
    requires Flight(msgs) && overhead < 203 && mtus != [] && forall i :: 0 <= i < |mtus| ==> mtus[i] >= 228
    ensures AllPasses(x, msgs) && Times(x) == |mtus| && wire == Records(SentPackets(x), 0)
    ensures transcript == Transcript(msgs)
  {
    var s := new Sender(0x100_000c, mtus[0], overhead);
    ghost var c := SendFlight(s, msgs, pending);
    x := Again(Never, c);
    RecordsAppend([], [], Packets(c), 0);
    s.retransmitting := true;
    for i := 1 to |mtus|
      invariant s.retransmitting && s.overhead == overhead && s.layerEpoch == 0
      invariant AllPasses(x, msgs) && Times(x) == i && s.wire == Records(SentPackets(x), 0)
      invariant s.transcript == Transcript(msgs)
    {
      x := Resend(s, msgs, mtus[i], pending, x);
    }
    wire, transcript := s.wire, s.transcript;
  }

  /** Reading records back into fragments. */
  method ParseRecords(wire: seq<Record>, ghost ps: seq<Packet>, ghost msgs: seq<Message>) returns (got: seq<Packet>)
    requires Flight(msgs) && HonestInput(ps, msgs) && wire == Records(ps, 0)
    ensures got == ps
  {
    got := [];
    for i := 0 to |wire|
      invariant got == ps[..i]
    {
      ghost var p := ps[i];
      HonestIsWhole(p, msgs);
      var q := ParseRecord(wire[i].payload, p);
      got := got + [q];
    }
  }

  method ParseRecord(payload: seq<byte>, ghost p: Packet) returns (got: Packet)
    requires FieldsFit(p.header) && payload == EncodePacket(p)
    ensures got == p
  {
    HeaderWrittenIsRead(p.header);
    assert payload[..12] == EncodeHeader(p.header) && payload[12..] == p.bytes;
    var ok, h := ReadHeader(payload);
    got := Packet(h, payload[12..]);
  }

  /** At most eleven messages, and no Finished ahead of its turn before the first of them. */
  predicate Timely(incoming: seq<Packet>, msgs: seq<Message>) {
    |msgs| <= 11 && (msgs != [] ==> NoEarlyFinished([], incoming, msgs))
  }

  /** The network loses nothing. */
  ghost predicate Lossless(network: seq<Packet> -> seq<Packet>) {
    forall ps, p :: p in ps ==> p in network(ps)
  }

  /** End to end: any network that only loses, repeats and reorders. The messages handed over are the messages sent,
      in order, and once all are, both ends have recorded the same transcript. However many passes there were and however
      each was cut, the arrivals alone decide how many messages that is. After one pass over at most eleven messages
      through a network that loses nothing, it is every message. */
  method Exchange(msgs: seq<Message>, overhead: nat, mtus: seq<nat>, pending: (nat, nat) -> nat,
                  network: seq<Packet> -> seq<Packet>, u: Setup)
      returns (incoming: seq<Packet>, delivered: seq<Message>, sentTranscript: seq<byte>, gotTranscript: seq<byte>)
    requires Flight(msgs) && overhead < 203 && mtus != [] && forall i :: 0 <= i < |mtus| ==> mtus[i] >= 228
    requires forall ps, p :: p in network(ps) ==> p in ps
    ensures HonestInput(incoming, msgs) && AllWhole(incoming) && delivered == Run(Start(), u, incoming).delivered
    ensures delivered <= msgs && sentTranscript == Transcript(msgs) && gotTranscript == Transcript(delivered)
    ensures gotTranscript <= sentTranscript && (delivered == msgs ==> gotTranscript == sentTranscript)
    ensures AllAcceptable(msgs, u) ==> Reached(incoming, msgs, delivered)
    ensures (|mtus| == 1 ==> Unmixed(incoming)) && (Lossless(network) ==> AllBrought(incoming, msgs))
    ensures |mtus| == 1 && Lossless(network) && AllAcceptable(msgs, u) && Timely(incoming, msgs) ==>
              delivered == msgs && gotTranscript == sentTranscript
  {
    var wire; ghost var x;
    wire, sentTranscript, x := SendAll(msgs, overhead, mtus, pending);
    PassesFacts(x, msgs);
    ghost var ps := SentPackets(x);
    var packets := ParseRecords(wire, ps, msgs);
    incoming := network(packets);
    forall i | 0 <= i < |incoming|
      ensures Honest(incoming[i], msgs) && Whole(incoming[i])
    {
      assert incoming[i] in network(packets);
      HonestIsWhole(incoming[i], msgs);
    }
    if |mtus| == 1 {
      UnmixedPart(ps, incoming);
    }
    if Lossless(network) {
      BroughtInMore(ps, incoming, msgs);
    }
    if Timely(incoming, msgs) {
      ShortIsPunctual(incoming, msgs);
    }
    delivered, gotTranscript := ReceiveAll(u, incoming, msgs);
  }

  lemma ShortIsPunctual(incoming: seq<Packet>, msgs: seq<Message>)
    requires HonestInput(incoming, msgs) && Timely(incoming, msgs)
    ensures Punctual([], incoming, msgs)
  {
    if msgs != [] {
      ShortFlightPunctual([], incoming, msgs);
    }
  }
}
