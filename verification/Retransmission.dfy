/** The retransmission queue of ssl/d1_both.c: messages are kept as they are sent,
    and a timeout sends the flight again under the epochs it was first sent under.
    Section 4.2.4 of RFC 6347. */
module Retransmission {
  import opened Asn1
  import opened HandshakeMessages
  import opened Fragmentation
  import opened MessageQueue

  /** The hm_fragment of a sent message, with the state saved for sending it again. */
  datatype SentMessage = SentMessage(fragment: seq<byte>, kind: byte, msgLen: nat, seqNum: nat, isCcs: bool, session: nat, epoch: nat)

  /** dtls1_get_queue_priority, as the two bytes that are stored. */
  function QueuePriority(seqNum: nat, isCcs: bool): (p: nat)
    ensures p < 0x1_0000
    ensures seqNum < 0x8000 && (isCcs ==> seqNum >= 1) ==> p == 2 * seqNum - if isCcs then 1 else 0
  {
    (2 * seqNum - if isCcs then 1 else 0) % 0x1_0000
  }

  function PriorityBytes(m: SentMessage): (p: seq<byte>)
    ensures |p| == 8
  {
    ToBytes(QueuePriority(m.seqNum, m.isCcs), 8)
  }

  lemma PriorityRead(m: SentMessage)
    ensures FromBytes(PriorityBytes(m)) == QueuePriority(m.seqNum, m.isCcs)
  {
    Pow256Values();
    assert Pow256(8) == 0x1_0000 * Pow256(6) by {
      assert Pow256(8) == 256 * Pow256(7) && Pow256(7) == 256 * Pow256(6);
    }
    WrittenIsRead(QueuePriority(m.seqNum, m.isCcs), 8);
  }

  /** A sent message is consistent: header room and body, or the one byte of a ChangeCipherSpec. */
  predicate WellFormed(m: SentMessage) {
    m.seqNum < 0x8000
    && if m.isCcs then m.msgLen == 0 && |m.fragment| == 1 && m.seqNum >= 1 else |m.fragment| == 12 + m.msgLen
  }

  function MessageOf(m: SentMessage): Message
    requires WellFormed(m) && !m.isCcs
  {
    Message(m.kind, m.seqNum, m.fragment[12..])
  }

  /** Records that carry this message whole, under its epoch. */
  ghost predicate Carries(rs: seq<Record>, m: SentMessage)
    requires WellFormed(m)
  {
    if m.isCcs then rs == [Record(ChangeCipherSpec, m.epoch, m.fragment)]
    else exists ps :: ps != [] && Tiles(ps, MessageOf(m), m.msgLen) && rs == Records(ps, m.epoch)
  }

  /** The first `n` groups carry the first `n` messages, one each. */
  ghost predicate AllCarried(groups: seq<seq<Record>>, log: seq<SentMessage>, n: nat) {
    n <= |groups| && n <= |log| && forall i :: 0 <= i < n ==> Carried(groups[i], log[i])
  }

  ghost predicate Carried(rs: seq<Record>, m: SentMessage) {
    WellFormed(m) && Carries(rs, m)
  }

  function Concat(groups: seq<seq<Record>>): seq<Record> {
    if groups == [] then [] else Concat(groups[..|groups| - 1]) + groups[|groups| - 1]
  }

  lemma ConcatGrows(before: seq<Record>, groups: seq<seq<Record>>, rs: seq<Record>)
    ensures before + Concat(groups + [rs]) == before + Concat(groups) + rs
  {
    assert (groups + [rs])[..|groups|] == groups;
  }

  /** Since `before`, one group of records after the other went out, one for each message from the first on. */
  ghost predicate Resent(groups: seq<seq<Record>>, log: seq<SentMessage>, before: seq<Record>, wire: seq<Record>) {
    AllCarried(groups, log, |groups|) && wire == before + Concat(groups)
  }

  lemma ResentNext(groups: seq<seq<Record>>, log: seq<SentMessage>, before: seq<Record>, rs: seq<Record>)
    requires AllCarried(groups, log, |groups|) && |groups| < |log| && Carried(rs, log[|groups|])
    ensures Resent(groups + [rs], log, before, before + Concat(groups) + rs)
  {
    CarriedNext(groups, log, rs);
    ConcatGrows(before, groups, rs);
  }

  lemma CarriedNext(groups: seq<seq<Record>>, log: seq<SentMessage>, rs: seq<Record>)
    requires AllCarried(groups, log, |groups|) && |groups| < |log| && Carried(rs, log[|groups|])
    ensures AllCarried(groups + [rs], log, |groups| + 1)
  {
    var all := groups + [rs];
    forall i | 0 <= i < |all|
      ensures Carried(all[i], log[i])
    {
      if i < |groups| {
        assert all[i] == groups[i];
      }
    }
  }

  lemma CarriedWhole(rs: seq<Record>, m: SentMessage, ps: seq<Packet>, before: seq<Record>, after: seq<Record>)
    requires WellFormed(m) && !m.isCcs && ps != [] && Sent(ps, MessageOf(m), m.msgLen, before, after, m.epoch)
    requires rs == Records(ps, m.epoch)
    ensures Carries(rs, m) && after == before + rs
  {
  }

  // ---------- which epochs can still be written under ----------

  /** The record layer's current and previous write epoch, and the epochs of the buffered messages in order. */
  datatype Epochs = Epochs(current: nat, previous: Option<nat>, log: seq<nat>)

  predicate Usable(e: Epochs, epoch: nat) {
    epoch == e.current || e.previous == Some(epoch)
  }

  predicate AllUsable(e: Epochs) {
    forall i :: 0 <= i < |e.log| ==> Usable(e, e.log[i])
  }

  /** What happens between two clearings: a message is sent, or new keys take effect. */
  datatype Deed = Send | Change

  function Do(e: Epochs, d: Deed): Epochs {
    match d
    case Send => e.(log := e.log + [e.current])
    case Change => Epochs(e.current + 1, Some(e.current), e.log)
  }

  function DoAll(e: Epochs, ds: seq<Deed>): Epochs {
    if ds == [] then e else Do(DoAll(e, ds[..|ds| - 1]), ds[|ds| - 1])
  }

  /** How often the keys changed after the first message. */
  function LateChanges(ds: seq<Deed>): nat {
    if ds == [] then 0
    else LateChanges(ds[..|ds| - 1]) + if ds[|ds| - 1].Change? && Send in ds[..|ds| - 1] then 1 else 0
  }

  /** The buffered epochs begin as many epochs back as the keys changed, and end at the current one. */
  lemma {:induction false} EpochsBehind(e: Epochs, ds: seq<Deed>)
    requires e.log == []
    ensures var r, n := DoAll(e, ds), LateChanges(ds);
            && (r.log != [] <==> Send in ds) && (r.log == [] ==> n == 0) && (r.log != [] ==> r.log[0] + n == r.current)
            && (forall i :: 0 <= i < |r.log| ==> r.current <= r.log[i] + n && r.log[i] <= r.current)
            && (n > 0 ==> r.previous == Some(r.current - 1))
  {
    if ds != [] {
      var front := ds[..|ds| - 1];
      EpochsBehind(e, front);
      assert ds == front + [ds[|ds| - 1]];
    }
  }

  /** From an empty buffer, the flight can be sent again exactly if the keys changed at most once after its first message. */
  lemma UsableIffOneChange(e: Epochs, ds: seq<Deed>)
    requires e.log == []
    ensures AllUsable(DoAll(e, ds)) <==> LateChanges(ds) <= 1
  {
    EpochsBehind(e, ds);
    var r := DoAll(e, ds);
    if LateChanges(ds) > 1 {
      assert !Usable(r, r.log[0]);
    }
  }

  /** The sending side of a connection with its retransmission queue. */
  class Outgoing {
    const sender: Sender
    const sent: Queue<SentMessage>
    var writeSeq: nat
    var nextWriteSeq: nat
    /** The epoch of the newest write keys (rl->write_current). */
    var currentEpoch: nat
    /** The epoch before the current one while the record layer keeps its keys (rl->write_previous). */
    var previousEpoch: Option<nat>
    /** What was buffered, in sending order. */
    ghost var log: seq<SentMessage>

    ghost predicate Kept(i: int)
      requires |sent.list| == |log| && 0 <= i < |log|
      reads this`log, this`nextWriteSeq, sent
    {
      var it, m := sent.list[i], log[i];
      it.data == m && it.priority == PriorityBytes(m) && |m.fragment| <= sender.initBuf.Length
      && Bounded(log, i, nextWriteSeq)
    }

    /** The queue holds what was sent, in the order it was sent. */
    ghost predicate Queued()
      reads this`log, this`nextWriteSeq, sent, sent.list
    {
      sent.Valid() && |sent.list| == |log|
      && (forall i {:trigger Kept(i)} :: 0 <= i < |log| ==> Kept(i))
    }

    /** The sender is between messages and writes under its own epoch. */
    ghost predicate Idle()
      reads this`currentEpoch, sender`mtu, sender`overhead, sender`retransmitting, sender`layerEpoch, sender`writeEpoch
    {
      sender.overhead < 203 && sender.mtu >= 228 && !sender.retransmitting
      && sender.layerEpoch == sender.writeEpoch == currentEpoch
    }

    /** The epochs that matter for sending again. */
    ghost function View(): Epochs
      reads this`currentEpoch, this`previousEpoch, this`log
    {
      Epochs(currentEpoch, previousEpoch, EpochsOf(log))
    }

    ghost predicate Valid()
      reads this`log, this`nextWriteSeq, this`currentEpoch, sent, sent.list
      reads sender`mtu, sender`overhead, sender`retransmitting, sender`layerEpoch, sender`writeEpoch
    {
      Queued() && Idle()
    }

    constructor (sender: Sender)
      requires sender.overhead < 203 && sender.mtu >= 228 && !sender.retransmitting && sender.layerEpoch == sender.writeEpoch
      ensures this.sender == sender && fresh(sent) && Valid() && log == [] && writeSeq == nextWriteSeq == 0 && previousEpoch == None
      ensures currentEpoch == sender.writeEpoch
    {
      this.sender := sender;
      sent := new Queue();
      writeSeq, nextWriteSeq, currentEpoch, previousEpoch := 0, 0, sender.writeEpoch, None;
      log := [];
    }

    /** The queue in sending order. */
    ghost predicate InOrder()
      reads this`log, sent
    {
      |sent.list| == |log| && forall i :: 0 <= i < |log| ==> sent.list[i].data == log[i] && sent.list[i].priority == PriorityBytes(log[i])
    }

    lemma AllBelow(m: SentMessage)
      requires Queued()
      requires m.seqNum == nextWriteSeq < 0x8000 && (m.isCcs ==> nextWriteSeq >= 1)
      requires m.isCcs && log != [] ==> !log[|log| - 1].isCcs
      ensures InOrder()
      ensures forall i :: 0 <= i < |sent.list| ==> sent.list[i].Key() < FromBytes(PriorityBytes(m))
    {
      PriorityRead(m);
      forall i | 0 <= i < |sent.list|
        ensures sent.list[i].Key() < FromBytes(PriorityBytes(m))
        ensures sent.list[i].data == log[i] && sent.list[i].priority == PriorityBytes(log[i])
      {
        assert Kept(i);
        PriorityRead(log[i]);
      }
    }

    /** pqueue_insert of the last message sent: its result is ignored, yet it never fails, and the place is the end. */
    method Append(m: SentMessage)
      requires sent.Valid() && InOrder()
      requires forall i :: 0 <= i < |sent.list| ==> sent.list[i].Key() < FromBytes(PriorityBytes(m))
      modifies this`log, sent, sent.list`next
      ensures sent.Valid() && log == old(log) + [m] && InOrder()
    {
      var item := new Item(PriorityBytes(m), m);
      ghost var was := sent.list;
      var ok; ghost var k;
      ok, k := sent.Insert(item);
      assert ok;
      assert sent.list == was + [item];
      log := log + [m];
    }

    /** dtls1_buffer_message */
    method BufferMessage(isCcs: bool) returns (m: SentMessage)
      requires Queued() && sender.initOff == 0
      requires sender.initNum <= sender.initBuf.Length
      requires sender.header.msgLen + (if isCcs then 1 else 12) == sender.initNum
      requires isCcs ==> sender.header.msgLen == 0
      requires sender.header.seqNum == nextWriteSeq < 0x8000 && (isCcs ==> nextWriteSeq >= 1)
      requires isCcs && log != [] ==> !log[|log| - 1].isCcs
      modifies this`log, sent, sent.list`next
      ensures sent.Valid() && InOrder() && log == old(log) + [m]
      ensures var h := sender.header;
              m == SentMessage(sender.initBuf[..sender.initNum], h.kind, h.msgLen, h.seqNum, isCcs, sender.session, sender.writeEpoch)
    {
      var h := sender.header;
      m := SentMessage(sender.initBuf[..sender.initNum], h.kind, h.msgLen, h.seqNum, isCcs, sender.session, sender.writeEpoch);
      AllBelow(m);
      Append(m);
    }

    /** The bounds of `Kept` after one more message of number `seqNum`. */
    lemma StillKept(was: seq<SentMessage>, m: SentMessage, next: nat)
      requires sent.Valid() && InOrder() && log == was + [m] && WellFormed(m) && |m.fragment| <= sender.initBuf.Length
      requires forall i :: 0 <= i < |was| ==> Bounded(was, i, next) && |was[i].fragment| <= sender.initBuf.Length
      requires m.seqNum == next && nextWriteSeq == if m.isCcs then next else next + 1
      requires m.isCcs && was != [] ==> !was[|was| - 1].isCcs
      ensures Queued()
    {
      forall i | 0 <= i < |log|
        ensures Kept(i)
      {
        if i < |was| {
          assert Bounded(was, i, next) && log[i] == was[i];
        }
      }
    }

    lemma KeptBounded()
      requires Queued()
      ensures forall i :: 0 <= i < |log| ==> Bounded(log, i, nextWriteSeq) && |log[i].fragment| <= sender.initBuf.Length
    {
      forall i | 0 <= i < |log|
        ensures Bounded(log, i, nextWriteSeq) && |log[i].fragment| <= sender.initBuf.Length
      {
        assert Kept(i);
      }
    }

    /** ssl3_handshake_msg_finish: number the message and buffer it. */
    method FinishMessage(kind: byte, body: seq<byte>) returns (m: SentMessage)
      requires Queued() && nextWriteSeq < 0x8000 && 12 + |body| <= sender.initBuf.Length && sender.writeEpoch == currentEpoch
      modifies this`log, this`writeSeq, this`nextWriteSeq, sent, sent.list`next, sender`initOff, sender`initNum, sender`header, sender.initBuf
      ensures Queued() && log == old(log) + [m] && nextWriteSeq == old(nextWriteSeq) + 1 && View() == Do(old(View()), Send)
      ensures WellFormed(m) && !m.isCcs && MessageOf(m) == Message(kind, old(nextWriteSeq), body)
      ensures m.epoch == sender.writeEpoch && m.session == sender.session
      ensures sender.Sending(MessageOf(m), 0)
    {
      KeptBounded();
      ghost var was, next := log, nextWriteSeq;
      sender.Load(Message(kind, nextWriteSeq, body));
      m := BufferMessage(false);
      assert m.fragment[12..] == sender.initBuf[..][12..12 + |body|];
      writeSeq := nextWriteSeq;
      nextWriteSeq := nextWriteSeq + 1;
      StillKept(was, m, next);
      ViewNext(was, m, currentEpoch, previousEpoch);
    }

    /** A handshake message is buffered and written. */
    method SendMessage(kind: byte, body: seq<byte>, pending: nat -> nat) returns (m: SentMessage, ghost rs: seq<Record>)
      requires Valid() && nextWriteSeq < 0x8000 && 12 + |body| <= sender.initBuf.Length
      modifies this`log, this`writeSeq, this`nextWriteSeq, sent, sent.list`next
      modifies sender`initOff, sender`initNum, sender`header, sender`wire, sender`transcript, sender`mtu, sender.initBuf
      ensures Valid() && log == old(log) + [m] && View() == Do(old(View()), Send)
      ensures WellFormed(m) && !m.isCcs && MessageOf(m) == Message(kind, old(nextWriteSeq), body)
      ensures m.epoch == sender.writeEpoch && m.session == sender.session && Carries(rs, m)
      ensures sender.wire == old(sender.wire) + rs
      ensures sender.transcript == old(sender.transcript) + Recorded(Message(kind, old(nextWriteSeq), body))
    {
      m := FinishMessage(kind, body);
      rs := Emit(m, pending);
    }

    /** The message in the buffer is written in fragments. */
    method Emit(m: SentMessage, pending: nat -> nat) returns (ghost rs: seq<Record>)
      requires WellFormed(m) && !m.isCcs && sender.Sending(MessageOf(m), 0) && m.epoch == sender.layerEpoch
      requires sender.overhead < 203 && sender.mtu >= 228
      modifies sender`initOff, sender`initNum, sender`header, sender`wire, sender`transcript, sender`mtu, sender.initBuf
      ensures Carries(rs, m) && sender.wire == old(sender.wire) + rs && sender.mtu >= 228
      ensures sender.transcript == old(sender.transcript) + if sender.retransmitting then [] else Recorded(MessageOf(m))
    {
      ghost var ps := sender.WriteMessage(false, 0, pending, MessageOf(m));
      rs := Records(ps, m.epoch);
      CarriedWhole(rs, m, ps, old(sender.wire), sender.wire);
    }

    /** ssl3_send_change_cipher_spec, the first half: it takes the number of the message to come. */
    method FinishChangeCipherSpec() returns (m: SentMessage)
      requires Queued() && 1 <= nextWriteSeq < 0x8000 && sender.initBuf.Length >= 1 && sender.writeEpoch == currentEpoch
      requires log != [] ==> !log[|log| - 1].isCcs
      modifies this`log, this`writeSeq, this`nextWriteSeq, sent, sent.list`next, sender`initOff, sender`initNum, sender`header, sender.initBuf
      ensures Queued() && log == old(log) + [m] && nextWriteSeq == old(nextWriteSeq) && View() == Do(old(View()), Send)
      ensures WellFormed(m) && m.isCcs && m.seqNum == nextWriteSeq && m.fragment == [1]
      ensures m.epoch == sender.writeEpoch && m.session == sender.session
      ensures sender.initOff == 0 && sender.initNum == 1 && sender.initBuf[0] == 1
    {
      KeptBounded();
      ghost var was, next := log, nextWriteSeq;
      sender.initBuf[0] := 1;
      sender.initOff, sender.initNum := 0, 1;
      writeSeq := nextWriteSeq;
      sender.header := Header(1, 0, writeSeq, 0, 0);
      m := BufferMessage(true);
      assert m.fragment == [1];
      StillKept(was, m, next);
      ViewNext(was, m, currentEpoch, previousEpoch);
    }

    /** ssl3_send_change_cipher_spec */
    method SendChangeCipherSpec(pending: nat) returns (m: SentMessage, ghost rs: seq<Record>)
      requires Valid() && 1 <= nextWriteSeq < 0x8000 && sender.initBuf.Length >= 1
      requires log != [] ==> !log[|log| - 1].isCcs
      modifies this`log, this`writeSeq, this`nextWriteSeq, sent, sent.list`next
      modifies sender`initOff, sender`initNum, sender`header, sender`wire, sender`mtu, sender.initBuf
      ensures Valid() && log == old(log) + [m] && View() == Do(old(View()), Send)
      ensures WellFormed(m) && m.isCcs && m.seqNum == old(nextWriteSeq) && m.fragment == [1]
      ensures m.epoch == sender.writeEpoch && m.session == sender.session && Carries(rs, m)
      ensures sender.wire == old(sender.wire) + rs
    {
      m := FinishChangeCipherSpec();
      sender.WriteChangeCipherSpec(false, 0, pending);
      rs := [Record(ChangeCipherSpec, m.epoch, [1])];
    }

    /** New keys take effect: the write epoch moves on, with its session. */
    method ChangeEpoch(session: nat)
      requires Valid()
      modifies this`previousEpoch, this`currentEpoch, sender`writeEpoch, sender`layerEpoch, sender`session
      ensures Valid() && View() == Do(old(View()), Change) && log == old(log) && sender.session == session
    {
      previousEpoch := Some(currentEpoch);
      currentEpoch := currentEpoch + 1;
      sender.writeEpoch := sender.writeEpoch + 1;
      sender.layerEpoch := sender.writeEpoch;
      sender.session := session;
    }

    /** The saved message stands in the buffer again. */
    method Reload(m: SentMessage)
      requires WellFormed(m) && |m.fragment| <= sender.initBuf.Length
      modifies sender`initOff, sender`initNum, sender`header, sender.initBuf
      ensures m.isCcs ==> sender.initOff == 0 && sender.initNum == 1 && [sender.initBuf[0]] == m.fragment
      ensures !m.isCcs ==> sender.Sending(MessageOf(m), 0)
    {
      var headerLength := if m.isCcs then 1 else 12;
      Put(sender.initBuf, 0, m.fragment);
      sender.initOff, sender.initNum := 0, m.msgLen + headerLength;
      sender.header := Header(m.kind, m.msgLen, m.seqNum, 0, m.msgLen);
      assert sender.initBuf[..][..|m.fragment|] == m.fragment;
      if !m.isCcs {
        assert sender.initBuf[..][12..12 + m.msgLen] == m.fragment[12..];
      }
    }

    /** The reloaded message sent again, once the epoch and session are switched. */
    method Rewrite(m: SentMessage, pending: nat -> nat) returns (ghost rs: seq<Record>)
      requires WellFormed(m) && |m.fragment| <= sender.initBuf.Length && m.epoch == sender.layerEpoch
      requires m.isCcs ==> sender.initOff == 0 && sender.initNum == 1 && sender.initBuf.Length >= 1 && [sender.initBuf[0]] == m.fragment
      requires !m.isCcs ==> sender.Sending(MessageOf(m), 0)
      requires sender.overhead < 203 && sender.mtu >= 228 && sender.retransmitting
      modifies sender`initOff, sender`initNum, sender`header, sender`wire, sender`transcript, sender`mtu, sender.initBuf
      ensures Carries(rs, m) && sender.wire == old(sender.wire) + rs && sender.transcript == old(sender.transcript)
      ensures sender.mtu >= 228
    {
      if m.isCcs {
        sender.WriteChangeCipherSpec(false, 0, pending(0));
        rs := [Record(ChangeCipherSpec, m.epoch, m.fragment)];
      } else {
        rs := Emit(m, pending);
      }
    }

    /** tls12_record_layer_use_write_epoch: only the keys in use, the current and the previous ones are there. */
    method UseWriteEpoch(epoch: nat) returns (ok: bool)
      modifies sender`layerEpoch
      ensures ok <==> epoch == old(sender.layerEpoch) || epoch == currentEpoch || previousEpoch == Some(epoch)
      ensures sender.layerEpoch == if ok then epoch else old(sender.layerEpoch)
    {
      if sender.layerEpoch == epoch {
        return true;
      }
      if currentEpoch == epoch {
        sender.layerEpoch := currentEpoch;
        return true;
      }
      if previousEpoch != None && previousEpoch.value == epoch {
        sender.layerEpoch := previousEpoch.value;
        return true;
      }
      return false;
    }

    /** The message of this priority is the one of that place in the log. */
    method FindSent(priority: nat, ghost i: nat) returns (m: SentMessage)
      requires Queued() && i < |log| && priority == QueuePriority(log[i].seqNum, log[i].isCcs)
      ensures m == log[i] && WellFormed(m) && |m.fragment| <= sender.initBuf.Length
    {
      assert Kept(i);
      PriorityRead(log[i]);
      var item; ghost var k;
      item, k := sent.Find(ToBytes(priority, 8));
      assert sent.list[i].Key() == FromBytes(ToBytes(priority, 8));
      assert k == i;
      m := item.data;
    }

    /** dtls1_retransmit_message: if the keys of its epoch are still there, the message of this priority goes out under
        its saved epoch, and the write epoch, session and record layer are as before; otherwise nothing goes out and
        the saved epoch and session are not put back. */
    method RetransmitMessage(priority: nat, pending: nat -> nat, ghost i: nat) returns (ok: bool, ghost rs: seq<Record>)
      requires Queued() && Idle() && i < |log| && priority == QueuePriority(log[i].seqNum, log[i].isCcs)
      modifies sender, sender.initBuf
      ensures ok <==> Usable(View(), log[i].epoch)
      ensures ok ==> Idle() && Carried(rs, log[i]) && sender.wire == old(sender.wire) + rs
      ensures ok ==> sender.writeEpoch == old(sender.writeEpoch) && sender.session == old(sender.session)
      ensures !ok ==> sender.wire == old(sender.wire) && sender.retransmitting && sender.layerEpoch == old(sender.layerEpoch)
      ensures !ok ==> sender.writeEpoch == log[i].epoch && sender.session == log[i].session
      ensures sender.transcript == old(sender.transcript)
    {
      var m := FindSent(priority, i);
      ok, rs := RetransmitFound(m, pending);
    }

    method RetransmitFound(m: SentMessage, pending: nat -> nat) returns (ok: bool, ghost rs: seq<Record>)
      requires Idle() && WellFormed(m) && |m.fragment| <= sender.initBuf.Length
      modifies sender, sender.initBuf
      ensures ok <==> Usable(View(), m.epoch)
      ensures ok ==> Idle() && Carries(rs, m) && sender.wire == old(sender.wire) + rs
      ensures ok ==> sender.writeEpoch == old(sender.writeEpoch) && sender.session == old(sender.session)
      ensures !ok ==> sender.wire == old(sender.wire) && sender.retransmitting && sender.layerEpoch == old(sender.layerEpoch)
      ensures !ok ==> sender.writeEpoch == m.epoch && sender.session == m.session
      ensures sender.transcript == old(sender.transcript)
    {
      rs := [];
      Reload(m);
      var savedSession, savedEpoch := sender.session, sender.writeEpoch;
      sender.retransmitting := true;
      ok := SwitchTo(m.session, m.epoch);
      if !ok {
        return;
      }
      rs := Rewrite(m, pending);
      ok := SwitchTo(savedSession, savedEpoch);
      sender.retransmitting := false;
    }

    /** Session and write epoch are set, and the record layer follows if it can. */
    method SwitchTo(session: nat, epoch: nat) returns (ok: bool)
      modifies sender`session, sender`writeEpoch, sender`layerEpoch
      ensures sender.session == session && sender.writeEpoch == epoch
      ensures ok <==> epoch == old(sender.layerEpoch) || Usable(View(), epoch)
      ensures sender.layerEpoch == if ok then epoch else old(sender.layerEpoch)
    {
      sender.session, sender.writeEpoch := session, epoch;
      ok := UseWriteEpoch(sender.writeEpoch);
    }

    /** dtls1_retransmit_buffered_messages: exactly if the keys of all epochs are still there, every message of the flight
        goes out again, once, in the order first sent, each under its own epoch; otherwise those before the first whose
        keys are gone. */
    method RetransmitBuffered(pending: (nat, nat) -> nat) returns (ok: bool, ghost groups: seq<seq<Record>>)
      requires Valid()
      modifies sender, sender.initBuf
      ensures ok <==> AllUsable(View())
      ensures ok ==> Valid() && |groups| == |log| && sender.writeEpoch == old(sender.writeEpoch) && sender.session == old(sender.session)
      ensures !ok ==> |groups| < |log| && !Usable(View(), log[|groups|].epoch)
      ensures Resent(groups, log, old(sender.wire), sender.wire) && sender.transcript == old(sender.transcript)
    {
      groups := [];
      var item := sent.Peek();
      ghost var before, e := sender.wire, View();
      var k := 0;
      while item != null
        invariant Queued() && Idle() && 0 <= k <= |log| && |groups| == k
        invariant item == if k < |log| then sent.list[k] else null
        invariant Resent(groups, log, before, sender.wire)
        invariant UsableTo(e, k)
        invariant sender.transcript == old(sender.transcript)
        invariant sender.writeEpoch == old(sender.writeEpoch) && sender.session == old(sender.session)
        decreases |log| - k
      {
        ok, item, groups := ResendItem(item, turn => pending(k, turn), k, groups, before, e);
        if !ok {
          return;
        }
        k := k + 1;
      }
      ok := true;
    }

    /** One turn of the iteration. */
    method ResendItem(item: Item<SentMessage>, pending: nat -> nat, ghost k: nat, ghost groups: seq<seq<Record>>, ghost before: seq<Record>,
                      ghost e: Epochs)
        returns (ok: bool, next: Item?<SentMessage>, ghost groups': seq<seq<Record>>)
      requires Queued() && Idle() && |groups| == k < |log| && item == sent.list[k] && Resent(groups, log, before, sender.wire)
      requires e == View() && UsableTo(e, k)
      modifies sender, sender.initBuf
      ensures ok <==> Usable(e, e.log[k])
      ensures ok ==> Queued() && Idle() && UsableTo(e, k + 1) && |groups'| == k + 1 && next == (if k + 1 < |log| then sent.list[k + 1] else null)
      ensures ok ==> sender.writeEpoch == old(sender.writeEpoch) && sender.session == old(sender.session)
      ensures !ok ==> groups' == groups
      ensures Resent(groups', log, before, sender.wire) && sender.transcript == old(sender.transcript)
    {
      assert Kept(k) && sent.Link(k);
      ghost var rs;
      next, groups' := item.next, groups;
      ok, rs := RetransmitMessage(QueuePriority(item.data.seqNum, item.data.isCcs), pending, k);
      if ok {
        ResentNext(groups, log, before, rs);
        UsableNext(e, k);
        groups' := groups + [rs];
      }
    }

    /** tls12_record_layer_write_epoch_done: the keys of that epoch go. */
    method EpochDone(epoch: nat)
      modifies this`previousEpoch, sender`layerEpoch
      ensures previousEpoch == if old(previousEpoch) == Some(epoch) then None else old(previousEpoch)
      ensures sender.layerEpoch == if old(previousEpoch) == Some(epoch) then currentEpoch else old(sender.layerEpoch)
    {
      if previousEpoch == None || previousEpoch.value != epoch {
        return;
      }
      sender.layerEpoch := currentEpoch;
      previousEpoch := None;
    }

    /** dtls1_clear_record_buffer: the flight is answered, and the keys of an epoch that a ChangeCipherSpec of it left go. */
    method ClearBuffer()
      requires Valid()
      modifies this`log, this`previousEpoch, sent, sender`layerEpoch
      ensures Valid() && log == [] && sender.layerEpoch == old(sender.layerEpoch)
      ensures previousEpoch == if Leaves(old(log), old(previousEpoch)) then None else old(previousEpoch)
    {
      ghost var rest, left := log, LeftOver(log, previousEpoch);
      HoldsLog();
      LeavesOneByOne(log, previousEpoch);
      var more := true;
      while more
        invariant sent.Valid() && Holds(sent.list, rest) && Idle() && sender.layerEpoch == old(sender.layerEpoch)
        invariant LeftOver(rest, previousEpoch) == left && (!more ==> rest == [])
        decreases more, |rest|
      {
        more, rest := DropOne(rest);
      }
      log := [];
    }

    /** One turn of dtls1_clear_record_buffer. */
    method DropOne(ghost rest: seq<SentMessage>) returns (more: bool, ghost rest': seq<SentMessage>)
      requires sent.Valid() && Holds(sent.list, rest) && Idle()
      modifies this`previousEpoch, sent, sender`layerEpoch
      ensures sent.Valid() && Holds(sent.list, rest') && Idle() && sender.layerEpoch == old(sender.layerEpoch)
      ensures LeftOver(rest', previousEpoch) == LeftOver(rest, old(previousEpoch))
      ensures if more then |rest'| < |rest| else rest' == []
    {
      var item := sent.Pop();
      if item == null {
        return false, [];
      }
      var m := item.data;
      if m.isCcs {
        EpochDone(m.epoch);
      }
      return true, rest[1..];
    }

    lemma HoldsLog()
      requires Queued()
      ensures Holds(sent.list, log)
    {
      forall i | 0 <= i < |log|
        ensures sent.list[i].data == log[i]
      {
        assert Kept(i);
      }
    }
  }

  ghost function EpochsOf(log: seq<SentMessage>): (epochs: seq<nat>)
    ensures |epochs| == |log| && forall i :: 0 <= i < |log| ==> epochs[i] == log[i].epoch
  {
    seq(|log|, i requires 0 <= i < |log| => log[i].epoch)
  }

  lemma ViewNext(log: seq<SentMessage>, m: SentMessage, current: nat, previous: Option<nat>)
    requires m.epoch == current
    ensures Epochs(current, previous, EpochsOf(log + [m])) == Do(Epochs(current, previous, EpochsOf(log)), Send)
  {
    assert EpochsOf(log + [m]) == EpochsOf(log) + [m.epoch];
  }

  /** The first `k` messages can be sent again. */
  predicate UsableTo(e: Epochs, k: nat) {
    k <= |e.log| && forall i :: 0 <= i < k ==> Usable(e, e.log[i])
  }

  lemma UsableNext(e: Epochs, k: nat)
    requires UsableTo(e, k) && k < |e.log| && Usable(e, e.log[k])
    ensures UsableTo(e, k + 1)
  {
  }

  /** The items carry these messages. */
  ghost predicate Holds(list: seq<Item<SentMessage>>, ms: seq<SentMessage>) {
    |list| == |ms| && forall i :: 0 <= i < |list| ==> list[i].data == ms[i]
  }

  /** A ChangeCipherSpec among the messages was sent under this epoch, the last thing to be. */
  ghost predicate Leaves(log: seq<SentMessage>, epoch: Option<nat>) {
    exists i :: 0 <= i < |log| && log[i].isCcs && Some(log[i].epoch) == epoch
  }

  /** The previous epoch after each message in turn has been dropped. */
  ghost function LeftOver(log: seq<SentMessage>, epoch: Option<nat>): Option<nat> {
    if log == [] then epoch
    else LeftOver(log[1..], if log[0].isCcs && Some(log[0].epoch) == epoch then None else epoch)
  }

  lemma {:induction false} LeavesOneByOne(log: seq<SentMessage>, epoch: Option<nat>)
    ensures LeftOver(log, epoch) == if Leaves(log, epoch) then None else epoch
  {
    if log != [] {
      var rest := log[1..];
      LeavesOneByOne(rest, if log[0].isCcs && Some(log[0].epoch) == epoch then None else epoch);
      assert forall i :: 0 <= i < |rest| ==> rest[i] == log[i + 1];
      if Leaves(log, epoch) && !(log[0].isCcs && Some(log[0].epoch) == epoch) {
        var i :| 0 <= i < |log| && log[i].isCcs && Some(log[i].epoch) == epoch;
        assert rest[i - 1] == log[i];
      }
    }
  }

  /** Priorities stay below those of the next number; only a ChangeCipherSpec at the end comes close. */
  predicate Bounded(log: seq<SentMessage>, i: int, next: nat)
    requires 0 <= i < |log|
  {
    var m := log[i];
    WellFormed(m) && QueuePriority(m.seqNum, m.isCcs) < 2 * next
    && (!(i == |log| - 1 && m.isCcs) ==> QueuePriority(m.seqNum, m.isCcs) + 1 < 2 * next)
  }
}
