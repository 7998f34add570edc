/** What the receiving half of ssl/d1_both.c does with handshake fragments, on
    values: which entries it buffers, when one is complete and which message is
    handed over next. Section 4.2.3 of RFC 6347. */
module Reassembly {
  import opened Asn1
  import opened ReassemblyMask
  import opened HandshakeMessages

  const HELLO_REQUEST: byte := 0
  const FINISHED: byte := 20

  /** A buffered message: its bytes so far and the positions received. */
  datatype Entry = Entry(kind: byte, body: seq<byte>, covered: set<nat>)

  predicate Complete(e: Entry) {
    AllCovered(|e.body|, e.covered)
  }

  /** The connection: next message number, buffered messages, message buffer. */
  datatype State = State(expected: nat, buffered: map<nat, Entry>, initBuf: seq<byte>)

  /** server: no HelloRequest is ignored; maxLen: longest message buffered; limit: longest accepted now. */
  datatype Config = Config(server: bool, maxLen: nat, limit: nat)

  datatype Outcome = Retry | Failed | Blocked | Delivered(message: Message)

  /** A packet as read from one record. */
  predicate Whole(p: Packet) {
    FieldsFit(p.header) && |p.bytes| == p.header.fragLen
  }

  function Overlay(b: seq<byte>, off: nat, bytes: seq<byte>): (r: seq<byte>)
    requires off + |bytes| <= |b|
    ensures |r| == |b|
    ensures forall i :: 0 <= i < |b| ==> r[i] == if off <= i < off + |bytes| then bytes[i - off] else b[i]
  {
    b[..off] + bytes + b[off + |bytes|..]
  }

  /** BUF_MEM_grow_clean */
  function Resize(b: seq<byte>, n: nat): (r: seq<byte>)
    ensures |r| == n
  {
    if n <= |b| then b[..n] else b + Zeros(n - |b|)
  }

  /** A fragment added to an entry. */
  function Absorb(e: Entry, off: nat, bytes: seq<byte>): Entry
    requires off + |bytes| <= |e.body|
  {
    Entry(e.kind, Overlay(e.body, off, bytes), e.covered + Range(off, off + |bytes|))
  }

  /** dtls1_reassemble_fragment */
  function Reassemble(buffered: map<nat, Entry>, maxLen: nat, p: Packet): (map<nat, Entry>, Outcome)
    requires Whole(p)
  {
    var h := p.header;
    if h.fragOff + h.fragLen > h.msgLen || h.msgLen > maxLen then (buffered, Failed)
    else if h.fragLen == 0 then (buffered, Retry)
    else if h.seqNum !in buffered then
      (buffered[h.seqNum := Absorb(Entry(h.kind, Zeros(h.msgLen), {}), h.fragOff, p.bytes)], Retry)
    else
      var e := buffered[h.seqNum];
      if |e.body| != h.msgLen then (buffered, Failed)
      else if Complete(e) then (buffered, Retry)
      else (buffered[h.seqNum := Absorb(e, h.fragOff, p.bytes)], Retry)
  }

  /** A message that is stale, too far ahead, already there, or a Finished before anything else. */
  predicate Discarded(buffered: map<nat, Entry>, expected: nat, h: Header) {
    h.seqNum <= expected || h.seqNum > expected + 10 || (h.seqNum in buffered && h.fragLen == h.msgLen)
    || (expected == 0 && h.kind == 20)
  }

  /** dtls1_process_out_of_seq_message */
  function OutOfSequence(buffered: map<nat, Entry>, expected: nat, maxLen: nat, p: Packet): (map<nat, Entry>, Outcome)
    requires Whole(p)
  {
    var h := p.header;
    if h.fragOff + h.fragLen > h.msgLen then (buffered, Failed)
    else if Discarded(buffered, expected, h) then (buffered, Retry)
    else if h.fragLen < h.msgLen then Reassemble(buffered, maxLen, p)
    else if h.fragLen > maxLen then (buffered, Failed)
    else (buffered[h.seqNum := Entry(h.kind, p.bytes, Range(0, h.fragLen))], Retry)
  }

  /** A message is handed over: its header is rebuilt as if it had come whole. */
  function Deliver(s: State, m: Message): (State, Outcome) {
    (State(s.expected + 1, s.buffered, Recorded(m)), Delivered(m))
  }

  /** dtls1_get_message_fragment on a fragment just read. */
  function Arrive(s: State, c: Config, p: Packet): (State, Outcome)
    requires Whole(p)
  {
    var h := p.header;
    if h.seqNum != s.expected then
      var (b, o) := OutOfSequence(s.buffered, s.expected, c.maxLen, p);
      (s.(buffered := b), o)
    else if 0 < h.fragLen < h.msgLen then
      var (b, o) := Reassemble(s.buffered, c.maxLen, p);
      (s.(buffered := b), o)
    else if !c.server && h.kind == 0 then (s, if h.msgLen == 0 then Retry else Failed)
    else if h.fragOff + h.fragLen > h.msgLen || h.fragOff + h.fragLen > c.limit then (s, Failed)
    else
      Deliver(s, Message(h.kind, h.seqNum, Overlay(Resize(s.initBuf, 12 + h.msgLen)[12..], h.fragOff, p.bytes)))
  }

  /** The head of the queue is the expected message, complete. */
  predicate Ready(s: State) {
    s.expected in s.buffered && Complete(s.buffered[s.expected])
    && forall k :: k in s.buffered ==> s.expected <= k
  }

  /** dtls1_retrieve_buffered_fragment when the head is ready. */
  function Retrieve(s: State, c: Config): (State, Outcome)
    requires Ready(s)
  {
    var e, left := s.buffered[s.expected], s.buffered - {s.expected};
    if |e.body| > c.limit then (s.(buffered := left), Failed)
    else Deliver(s.(buffered := left), Message(e.kind, s.expected, e.body))
  }

  /** dtls1_get_message: fragments are read until a message is complete. */
  function GetMessage(s: State, c: Config, input: seq<Packet>): (State, Outcome, seq<Packet>)
    requires forall i :: 0 <= i < |input| ==> Whole(input[i])
    decreases |input|
  {
    if Ready(s) then (Retrieve(s, c).0, Retrieve(s, c).1, input)
    else if input == [] then (s, Blocked, [])
    else
      var (s', o) := Arrive(s, c, input[0]);
      if o.Retry? then GetMessage(s', c, input[1..]) else (s', o, input[1..])
  }

  // ---------- every run ----------

  /** No entry lies more than ten ahead. */
  predicate InWindow(s: State) {
    forall k :: k in s.buffered ==> k <= s.expected + 10
  }

  lemma ArriveKeepsWindow(s: State, c: Config, p: Packet)
    requires Whole(p) && InWindow(s)
    ensures InWindow(Arrive(s, c, p).0)
  {
  }

  /** Every call, whatever arrives, hands over exactly the expected number and moves on by one, or hands over nothing. */
  lemma {:induction false} GetMessageInSequence(s: State, c: Config, input: seq<Packet>)
    requires forall i :: 0 <= i < |input| ==> Whole(input[i])
    requires InWindow(s)
    ensures var (s', o, rest) := GetMessage(s, c, input);
            InWindow(s') && (o.Delivered? ==> o.message.seqNum == s.expected && s'.expected == s.expected + 1)
            && (!o.Delivered? ==> s'.expected == s.expected) && !o.Retry?
    decreases |input|
  {
    if !Ready(s) && input != [] {
      ArriveKeepsWindow(s, c, input[0]);
      var (s', o) := Arrive(s, c, input[0]);
      if o.Retry? {
        GetMessageInSequence(s', c, input[1..]);
      }
    }
  }

  // ---------- an honest peer over a bad network ----------

  /** The messages of a handshake, numbered from 0. */
  predicate Flight(msgs: seq<Message>) {
    forall i :: 0 <= i < |msgs| ==> msgs[i].seqNum == i && MessageFits(msgs[i])
  }

  /** A fragment of one of the messages, cut anywhere. */
  predicate Honest(p: Packet, msgs: seq<Message>) {
    p.header.seqNum < |msgs| && IsFragment(p, msgs[p.header.seqNum])
  }

  /** An entry holds the message's bytes wherever it is covered. */
  predicate EntryOf(e: Entry, m: Message) {
    e.kind == m.kind && |e.body| == |m.body|
    && (forall i :: 0 <= i < |e.body| ==> i in e.covered ==> e.body[i] == m.body[i])
  }

  predicate AllEntries(buffered: map<nat, Entry>, msgs: seq<Message>) {
    forall k :: k in buffered ==> k < |msgs| && EntryOf(buffered[k], msgs[k])
  }

  predicate Faithful(s: State, msgs: seq<Message>) {
    AllEntries(s.buffered, msgs)
  }

  lemma HonestIsWhole(p: Packet, msgs: seq<Message>)
    requires Flight(msgs) && Honest(p, msgs)
    ensures Whole(p)
  {
  }

  lemma CompleteEntry(e: Entry, m: Message)
    requires EntryOf(e, m) && Complete(e)
    ensures e.body == m.body
  {
  }

  lemma AbsorbKeeps(e: Entry, m: Message, p: Packet)
    requires EntryOf(e, m) && IsFragment(p, m)
    ensures EntryOf(Absorb(e, p.header.fragOff, p.bytes), m)
  {
  }

  lemma ReassembleFaithful(buffered: map<nat, Entry>, maxLen: nat, p: Packet, msgs: seq<Message>)
    requires Flight(msgs) && Honest(p, msgs) && Whole(p) && AllEntries(buffered, msgs)
    ensures AllEntries(Reassemble(buffered, maxLen, p).0, msgs)
  {
    var h, m := p.header, msgs[p.header.seqNum];
    var e := if h.seqNum in buffered then buffered[h.seqNum] else Entry(h.kind, Zeros(h.msgLen), {});
    assert EntryOf(e, m);
    AbsorbKeeps(e, m, p);
    EntryPut(buffered, h.seqNum, Absorb(e, h.fragOff, p.bytes), msgs);
  }

  lemma EntryPut(buffered: map<nat, Entry>, k: nat, e: Entry, msgs: seq<Message>)
    requires AllEntries(buffered, msgs) && k < |msgs| && EntryOf(e, msgs[k])
    ensures AllEntries(buffered[k := e], msgs)
  {
  }

  lemma OutOfSequenceFaithful(buffered: map<nat, Entry>, expected: nat, maxLen: nat, p: Packet, msgs: seq<Message>)
    requires Flight(msgs) && Honest(p, msgs) && Whole(p) && AllEntries(buffered, msgs)
    ensures AllEntries(OutOfSequence(buffered, expected, maxLen, p).0, msgs)
  {
    ReassembleFaithful(buffered, maxLen, p, msgs);
    var h := p.header;
    if h.fragLen == h.msgLen {
      assert p.bytes == msgs[h.seqNum].body;
      EntryPut(buffered, h.seqNum, Entry(h.kind, p.bytes, Range(0, h.fragLen)), msgs);
    }
  }

  lemma ArriveKeepsFaith(s: State, c: Config, p: Packet, msgs: seq<Message>)
    requires Flight(msgs) && Honest(p, msgs) && Whole(p) && Faithful(s, msgs)
    ensures Faithful(Arrive(s, c, p).0, msgs)
  {
    ReassembleFaithful(s.buffered, c.maxLen, p, msgs);
    OutOfSequenceFaithful(s.buffered, s.expected, c.maxLen, p, msgs);
  }

  /** A message handed over at once came in one fragment. */
  lemma ArriveDelivers(s: State, c: Config, p: Packet, msgs: seq<Message>)
    requires Flight(msgs) && Honest(p, msgs) && Whole(p) && Arrive(s, c, p).1.Delivered?
    ensures s.expected < |msgs| && Arrive(s, c, p).1.message == msgs[s.expected]
  {
    var h := p.header;
    OneFragment(p, msgs[h.seqNum], Resize(s.initBuf, 12 + h.msgLen)[12..]);
  }

  lemma OneFragment(p: Packet, m: Message, room: seq<byte>)
    requires IsFragment(p, m) && !(0 < p.header.fragLen < p.header.msgLen) && |room| == p.header.msgLen
    ensures Overlay(room, p.header.fragOff, p.bytes) == m.body && p.header.kind == m.kind && p.header.seqNum == m.seqNum
  {
    assert p.header.fragOff == 0 && p.bytes == m.body;
  }

  lemma ArriveFaithful(s: State, c: Config, p: Packet, msgs: seq<Message>)
    requires Flight(msgs) && Honest(p, msgs) && Faithful(s, msgs)
    ensures Whole(p) && Faithful(Arrive(s, c, p).0, msgs)
    ensures Arrive(s, c, p).1.Delivered? ==> s.expected < |msgs| && Arrive(s, c, p).1.message == msgs[s.expected]
  {
    HonestIsWhole(p, msgs);
    ArriveKeepsFaith(s, c, p, msgs);
    if Arrive(s, c, p).1.Delivered? {
      ArriveDelivers(s, c, p, msgs);
    }
  }

  lemma RetrieveFaithful(s: State, c: Config, msgs: seq<Message>)
    requires Flight(msgs) && Faithful(s, msgs) && Ready(s)
    ensures Faithful(Retrieve(s, c).0, msgs)
    ensures Retrieve(s, c).1.Delivered? ==> s.expected < |msgs| && Retrieve(s, c).1.message == msgs[s.expected]
  {
    CompleteEntry(s.buffered[s.expected], msgs[s.expected]);
  }

  /** Whatever order, duplication, loss or overlap: the message handed over is the one sent. */
  lemma {:induction false} GetMessageFaithful(s: State, c: Config, input: seq<Packet>, msgs: seq<Message>)
    requires Flight(msgs) && Faithful(s, msgs)
    requires forall i :: 0 <= i < |input| ==> Whole(input[i]) && Honest(input[i], msgs)
    ensures Faithful(GetMessage(s, c, input).0, msgs)
    ensures GetMessage(s, c, input).1.Delivered? ==> s.expected < |msgs| && GetMessage(s, c, input).1.message == msgs[s.expected]
    decreases |input|
  {
    if Ready(s) {
      RetrieveFaithful(s, c, msgs);
    } else if input != [] {
      ArriveFaithful(s, c, input[0], msgs);
      var next := Arrive(s, c, input[0]);
      if next.1.Retry? {
        ArriveKeepsNumber(s, c, input[0]);
        GetMessageFaithful(next.0, c, input[1..], msgs);
      }
    }
  }

  lemma ArriveKeepsNumber(s: State, c: Config, p: Packet)
    requires Whole(p) && !Arrive(s, c, p).1.Delivered?
    ensures Arrive(s, c, p).0.expected == s.expected
  {
  }

  // ---------- exactly when every byte is covered ----------

  /** The positions a fragment carries of message `k`. */
  function Part(p: Packet, k: nat): set<nat> {
    if p.header.seqNum == k then Range(p.header.fragOff, p.header.fragOff + |p.bytes|) else {}
  }

  /** The positions of message `k` that a list of fragments carries. */
  function Coverage(ps: seq<Packet>, k: nat): set<nat> {
    if ps == [] then {} else Part(ps[0], k) + Coverage(ps[1..], k)
  }

  predicate Arrives(ps: seq<Packet>, k: nat) {
    exists i :: 0 <= i < |ps| && ps[i].header.seqNum == k
  }

  function CoveredAlready(s: State): set<nat> {
    if s.expected in s.buffered then s.buffered[s.expected].covered else {}
  }

  /** An entry of a message that was already handed over is still queued. */
  predicate Stale(s: State) {
    exists k :: k in s.buffered && k < s.expected
  }

  /** Nothing stale is queued, and the entry for the expected message, if any, is not yet complete. */
  predicate Waiting(s: State) {
    !Stale(s) && !Ready(s)
  }

  /** Messages this end will take. */
  predicate Acceptable(m: Message, c: Config) {
    |m.body| <= c.maxLen && |m.body| <= c.limit && (!c.server ==> m.kind != 0)
  }

  /** What is buffered and what arrives cover the expected message; an empty message needs one fragment. */
  predicate There(s: State, input: seq<Packet>, m: Message) {
    AllCovered(|m.body|, CoveredAlready(s) + Coverage(input, s.expected))
    && (m.body == [] ==> s.expected in s.buffered || Arrives(input, s.expected))
  }

  /** One honest fragment while waiting: the entry of the expected message gains its range, or the message is handed over. */
  lemma ArriveProgress(s: State, c: Config, p: Packet, msgs: seq<Message>)
    requires Flight(msgs) && Honest(p, msgs) && Faithful(s, msgs) && Waiting(s) && s.expected < |msgs|
    requires forall i :: 0 <= i < |msgs| ==> Acceptable(msgs[i], c)
    ensures Whole(p)
    ensures var (s', o) := Arrive(s, c, p);
            var h := p.header;
            (o.Delivered? <==> h.seqNum == s.expected && h.fragLen == h.msgLen)
            && (!o.Delivered? ==> o.Retry? && s'.expected == s.expected)
            && (!o.Delivered? ==> !Stale(s'))
            && (!o.Delivered? ==> CoveredAlready(s') == CoveredAlready(s) + Part(p, s.expected))
            && (h.seqNum != s.expected ==> (s.expected in s'.buffered <==> s.expected in s.buffered))
  {
    HonestIsWhole(p, msgs);
    assert Acceptable(msgs[p.header.seqNum], c);
  }

  /** Nothing more arrives: a waiting receiver does not have the message. */
  lemma NotThere(s: State, m: Message)
    requires Waiting(s) && (s.expected in s.buffered ==> |s.buffered[s.expected].body| == |m.body|)
    ensures !There(s, [], m)
  {
    assert Coverage([], s.expected) == {};
    if s.expected !in s.buffered && m.body != [] {
      assert 0 !in CoveredAlready(s) + Coverage([], s.expected);
    }
    if s.expected in s.buffered {
      var i: nat :| i < |m.body| && i !in s.buffered[s.expected].covered;
      assert i !in CoveredAlready(s) + Coverage([], s.expected);
    }
  }

  lemma ThereAtOnce(s: State, input: seq<Packet>, m: Message)
    requires input != [] && input[0].header.seqNum == s.expected && input[0].header.fragOff == 0 && |input[0].bytes| == |m.body|
    ensures There(s, input, m)
  {
    assert forall i: nat :: i < |m.body| ==> i in Part(input[0], s.expected);
  }

  lemma ThereLater(s: State, s': State, input: seq<Packet>, m: Message)
    requires input != [] && s'.expected == s.expected
    requires CoveredAlready(s') == CoveredAlready(s) + Part(input[0], s.expected)
    requires m.body == [] ==> input[0].header.seqNum != s.expected && (s.expected in s'.buffered <==> s.expected in s.buffered)
    ensures There(s, input, m) <==> There(s', input[1..], m)
  {
    assert CoveredAlready(s') + Coverage(input[1..], s.expected) == CoveredAlready(s) + Coverage(input, s.expected);
    if Arrives(input, s.expected) && input[0].header.seqNum != s.expected {
      var i :| 0 <= i < |input| && input[i].header.seqNum == s.expected;
      assert input[1..][i - 1] == input[i];
    }
    if Arrives(input[1..], s.expected) {
      var i :| 0 <= i < |input[1..]| && input[1..][i].header.seqNum == s.expected;
      assert input[i + 1] == input[1..][i];
    }
  }

  lemma {:induction false} CoverageDecidesInOrder(s: State, c: Config, input: seq<Packet>, msgs: seq<Message>)
    requires Flight(msgs) && Faithful(s, msgs) && s.expected < |msgs| && !Stale(s)
    requires forall i :: 0 <= i < |input| ==> Whole(input[i]) && Honest(input[i], msgs)
    requires forall i :: 0 <= i < |msgs| ==> Acceptable(msgs[i], c)
    ensures GetMessage(s, c, input).1 == if There(s, input, msgs[s.expected]) then Delivered(msgs[s.expected]) else Blocked
    decreases |input|
  {
    var m := msgs[s.expected];
    if Ready(s) {
      CompleteEntry(s.buffered[s.expected], m);
      assert Acceptable(m, c);
    } else if input == [] {
      NotThere(s, m);
    } else {
      ArriveProgress(s, c, input[0], msgs);
      ArriveFaithful(s, c, input[0], msgs);
      var (s', o) := Arrive(s, c, input[0]);
      if o.Retry? {
        CoverageDecidesInOrder(s', c, input[1..], msgs);
        ThereLater(s, s', input, m);
      } else {
        ThereAtOnce(s, input, m);
      }
    }
  }

  // ---------- with a stale entry at the head of the queue ----------

  /** A fragment that is a whole message. */
  predicate IsWhole(p: Packet) {
    p.header.fragLen == p.header.msgLen
  }

  predicate ArrivesWhole(input: seq<Packet>, k: nat) {
    exists i :: 0 <= i < |input| && input[i].header.seqNum == k && IsWhole(input[i])
  }

  /** One honest fragment behind a stale entry: only a whole message gets through, and the entry stays. */
  lemma ArriveStale(s: State, c: Config, p: Packet, msgs: seq<Message>)
    requires Flight(msgs) && Honest(p, msgs) && Faithful(s, msgs) && Stale(s)
    requires p.header.msgLen <= c.maxLen && (s.expected < |msgs| ==> Acceptable(msgs[s.expected], c))
    ensures Whole(p)
    ensures var (s', o) := Arrive(s, c, p);
            (o.Delivered? <==> p.header.seqNum == s.expected && IsWhole(p))
            && (if o.Delivered? then s'.expected == s.expected + 1 else o.Retry? && s'.expected == s.expected) && Stale(s')
  {
    HonestIsWhole(p, msgs);
    var k :| k in s.buffered && k < s.expected;
    assert k in Arrive(s, c, p).0.buffered;
  }

  lemma {:induction false} WholeDecides(s: State, c: Config, input: seq<Packet>, msgs: seq<Message>)
    requires Flight(msgs) && Faithful(s, msgs) && s.expected < |msgs| && Stale(s)
    requires forall i :: 0 <= i < |input| ==> Whole(input[i]) && Honest(input[i], msgs)
    requires forall i :: 0 <= i < |msgs| ==> Acceptable(msgs[i], c)
    ensures GetMessage(s, c, input).1 == if ArrivesWhole(input, s.expected) then Delivered(msgs[s.expected]) else Blocked
    decreases |input|
  {
    if input != [] {
      assert Honest(input[0], msgs) && Acceptable(msgs[input[0].header.seqNum], c);
      ArriveStale(s, c, input[0], msgs);
      ArriveFaithful(s, c, input[0], msgs);
      var (s', o) := Arrive(s, c, input[0]);
      if o.Retry? {
        WholeDecides(s', c, input[1..], msgs);
        WholeLater(input, s.expected);
      } else {
        assert ArrivesWhole(input, s.expected);
      }
    }
  }

  lemma WholeLater(input: seq<Packet>, k: nat)
    requires input != [] && !(input[0].header.seqNum == k && IsWhole(input[0]))
    ensures ArrivesWhole(input, k) <==> ArrivesWhole(input[1..], k)
  {
    if ArrivesWhole(input, k) {
      var i :| 0 <= i < |input| && input[i].header.seqNum == k && IsWhole(input[i]);
      assert input[1..][i - 1] == input[i];
    }
    if ArrivesWhole(input[1..], k) {
      var i :| 0 <= i < |input[1..]| && input[1..][i].header.seqNum == k && IsWhole(input[1..][i]);
      assert input[i + 1] == input[1..][i];
    }
  }

  /** What it takes for the expected message to be handed over: its bytes, or behind a stale entry the whole of it at once. */
  predicate HandsOver(s: State, input: seq<Packet>, m: Message) {
    if Stale(s) then ArrivesWhole(input, s.expected) else There(s, input, m)
  }

  /** In every state that honest fragments lead to: with nothing stale queued the expected message is handed
      over exactly when the fragments that arrive, together with what its entry holds, cover it; behind a stale
      entry exactly when it arrives in one fragment. */
  lemma CoverageDecides(s: State, c: Config, input: seq<Packet>, msgs: seq<Message>)
    requires Flight(msgs) && Faithful(s, msgs) && s.expected < |msgs|
    requires forall i :: 0 <= i < |input| ==> Whole(input[i]) && Honest(input[i], msgs)
    requires forall i :: 0 <= i < |msgs| ==> Acceptable(msgs[i], c)
    ensures GetMessage(s, c, input).1 == if HandsOver(s, input, msgs[s.expected]) then Delivered(msgs[s.expected]) else Blocked
  {
    if Stale(s) {
      WholeDecides(s, c, input, msgs);
    } else {
      CoverageDecidesInOrder(s, c, input, msgs);
    }
  }
}
