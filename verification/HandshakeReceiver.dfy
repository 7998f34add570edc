/** The receiving half of ssl/d1_both.c: fragments assembled in place under a
    bitmask, buffered in the sorted queue of ssl/pqueue.c. */
module HandshakeReceiver {
  import opened Asn1
  import opened ReassemblyMask
  import opened HandshakeMessages
  import opened Reassembly
  import opened MessageQueue

  /** hm_fragment: a buffered message; `reassembly` is gone once every byte is there. */
  class Buffered {
    const kind: byte
    const seqNum: nat
    var fragment: seq<byte>
    var reassembly: Option<seq<bv8>>
    ghost var entry: Entry

    ghost predicate Valid()
      reads this
    {
      entry.kind == kind && entry.body == fragment
      && (reassembly == None <==> Complete(entry))
      && (reassembly.Some? ==> Represents(reassembly.value, |fragment|, entry.covered))
    }

    /** dtls1_hm_fragment_new with a bitmask, for the first fragment of a message. */
    constructor Partial(h: Header)
      requires h.msgLen > 0
      ensures Valid() && kind == h.kind && seqNum == h.seqNum && reassembly.Some?
      ensures entry == Entry(h.kind, Zeros(h.msgLen), {})
    {
      kind, seqNum := h.kind, h.seqNum;
      fragment := Zeros(h.msgLen);
      var bits := seq((h.msgLen + 7) / 8, _ => 0);
      reassembly := Some(bits);
      entry := Entry(h.kind, Zeros(h.msgLen), {});
      new;
      assert 0 !in entry.covered;
      NothingMarked(bits, h.msgLen);
    }

    /** dtls1_hm_fragment_new without a bitmask, filled with the whole message. */
    constructor Full(h: Header, bytes: seq<byte>)
      requires |bytes| == h.msgLen
      ensures Valid() && kind == h.kind && seqNum == h.seqNum
      ensures entry == Entry(h.kind, bytes, Range(0, h.msgLen))
    {
      kind, seqNum := h.kind, h.seqNum;
      fragment, reassembly := bytes, None;
      entry := Entry(h.kind, bytes, Range(0, h.msgLen));
    }

    /** The bytes of a fragment go to their place, their flags are set, and the mask goes when all are. */
    method Add(off: nat, bytes: seq<byte>)
      requires Valid() && reassembly.Some? && bytes != [] && off + |bytes| <= |fragment|
      modifies this
      ensures Valid() && entry == Absorb(old(entry), off, bytes)
    {
      ghost var was := entry;
      fragment := fragment[..off] + bytes + fragment[off + |bytes|..];
      entry := Absorb(was, off, bytes);
      var mask := Mark(reassembly.value, off, off + |bytes|);
      MarkingRepresents(reassembly.value, mask, |fragment|, was.covered, off, off + |bytes|);
      reassembly := Some(mask);
      var complete := IsComplete(mask, |fragment|, entry.covered);
      if complete {
        reassembly := None;
      }
    }
  }

  /** An item stands for its entry. */
  ghost predicate Stored(it: Item<Buffered>, entries: map<nat, Entry>)
    reads it.data
  {
    it.data.Valid() && it.data.seqNum == it.Key() && it.Key() in entries && entries[it.Key()] == it.data.entry
  }

  /** The buffered messages of a list are among those of the receiver. */
  ghost predicate AllPooled(list: seq<Item<Buffered>>, pool: set<Buffered>) {
    forall i {:trigger list[i].data} :: 0 <= i < |list| ==> list[i].data in pool
  }

  /** Every entry has an item. */
  ghost predicate AllKeyed(list: seq<Item<Buffered>>, entries: map<nat, Entry>) {
    forall k :: k in entries ==> exists i :: 0 <= i < |list| && list[i].Key() == k
  }

  /** Where an item of the longer list comes from. */
  lemma JoinedAt(list: seq<Item<Buffered>>, was: seq<Item<Buffered>>, item: Item<Buffered>, k: nat, i: nat)
    requires k <= |was| && list == was[..k] + [item] + was[k..] && i < |list|
    ensures list[i] == if i < k then was[i] else if i == k then item else was[i - 1]
  {
  }

  lemma JoinedFrom(list: seq<Item<Buffered>>, was: seq<Item<Buffered>>, item: Item<Buffered>, k: nat)
    requires k <= |was| && list == was[..k] + [item] + was[k..]
    ensures forall i :: 0 <= i < |list| ==> list[i] in was || list[i] == item
  {
    forall i | 0 <= i < |list|
      ensures list[i] in was || list[i] == item
    {
      JoinedAt(list, was, item, k, i);
    }
  }

  /** An item joins a list. */
  lemma ListJoined(list: seq<Item<Buffered>>, was: seq<Item<Buffered>>, item: Item<Buffered>, k: nat, pool: set<Buffered>, entries: map<nat, Entry>,
                   e: Entry)
    requires k <= |was| && list == was[..k] + [item] + was[k..] && AllPooled(was, pool) && AllKeyed(was, entries)
    ensures AllPooled(list, pool + {item.data}) && AllKeyed(list, entries[item.Key() := e])
  {
    var now := entries[item.Key() := e];
    forall key | key in now
      ensures exists i :: 0 <= i < |list| && list[i].Key() == key
    {
      KeyStays(was, item, k, key);
    }
  }

  /** The head leaves. */
  lemma ListLeft(list: seq<Item<Buffered>>, was: seq<Item<Buffered>>, pool: set<Buffered>, entries: map<nat, Entry>)
    requires was != [] && list == was[1..] && AllPooled(was, pool) && AllKeyed(was, entries)
    ensures AllPooled(list, pool) && AllKeyed(list, entries - {was[0].Key()})
  {
    var now := entries - {was[0].Key()};
    forall key | key in now
      ensures exists i :: 0 <= i < |list| && list[i].Key() == key
    {
      var j :| 0 <= j < |was| && was[j].Key() == key;
      assert list[j - 1] == was[j];
    }
  }

  lemma KeyStays(was: seq<Item<Buffered>>, item: Item<Buffered>, k: nat, key: nat)
    requires k <= |was| && (item.Key() == key || exists i :: 0 <= i < |was| && was[i].Key() == key)
    ensures var now := was[..k] + [item] + was[k..];
            exists i :: 0 <= i < |now| && now[i].Key() == key
  {
    var now := was[..k] + [item] + was[k..];
    if item.Key() == key {
      assert now[k].Key() == key;
    } else {
      var j :| 0 <= j < |was| && was[j].Key() == key;
      assert now[if j < k then j else j + 1] == was[j];
    }
  }

  /** The eight byte priority of a message number. */
  function Priority(seqNum: nat): (p: seq<byte>)
    ensures |p| == 8
  {
    ToBytes(seqNum, 8)
  }

  lemma PriorityIsNumber(seqNum: nat)
    requires seqNum < 0x1_0000
    ensures FromBytes(Priority(seqNum)) == seqNum
  {
    Pow256Values();
    assert Pow256(8) == 0x1_0000 * Pow256(6) by {
      assert Pow256(8) == 256 * Pow256(7) && Pow256(7) == 256 * Pow256(6);
    }
    WrittenIsRead(seqNum, 8);
  }

  class Receiver {
    const server: bool
    const maxLen: nat
    const queue: Queue<Buffered>
    /** handshake_read_seq */
    var expected: nat
    var initBuf: seq<byte>
    var transcript: seq<byte>
    /** Fragments the network has delivered and nobody has read. */
    var incoming: seq<Packet>
    ghost var buffered: map<nat, Entry>
    /** The buffered messages it has made. */
    ghost var pool: set<Buffered>

    ghost predicate Valid()
      reads this`buffered, this`pool, queue, queue.list, pool
    {
      queue.Valid() && AllPooled(queue.list, pool) && AllKeyed(queue.list, buffered)
      && (forall i {:trigger Slot(i)} :: 0 <= i < |queue.list| ==> Slot(i))
    }

    /** The i-th queued item stands for its entry of `buffered`. */
    ghost predicate Slot(i: int)
      requires 0 <= i < |queue.list| && AllPooled(queue.list, pool)
      reads this`buffered, this`pool, queue, queue.list, pool
    {
      Stored(queue.list[i], buffered)
    }

    /** What the receiver came to own is new. */
    twostate predicate Fresh()
      reads this, queue
    {
      (forall i :: 0 <= i < |queue.list| ==> queue.list[i] in old(queue.list) || fresh(queue.list[i]))
      && fresh(pool - old(pool))
    }

    ghost function View(): State
      reads this
    {
      State(expected, buffered, initBuf)
    }

    constructor (server: bool, maxLen: nat, incoming: seq<Packet>)
      ensures Valid() && fresh(queue) && queue.list == [] && pool == {}
      ensures View() == State(0, map[], []) && transcript == []
      ensures this.server == server && this.maxLen == maxLen && this.incoming == incoming
    {
      this.server, this.maxLen, this.incoming := server, maxLen, incoming;
      expected, initBuf, transcript := 0, [], [];
      queue := new Queue();
      buffered, pool := map[], {};
    }

    lemma SameKeys(k: nat)
      requires Valid()
      ensures k in buffered <==> queue.HasKey(k)
    {
      if queue.HasKey(k) {
        var i :| 0 <= i < |queue.list| && queue.list[i].Key() == k;
        assert Slot(i);
      }
    }

    /** A fragment joins the entry at queue position `k`. */
    method AddTo(b: Buffered, off: nat, bytes: seq<byte>, ghost k: nat)
      requires Valid() && k < |queue.list| && queue.list[k].data == b
      requires b.reassembly.Some? && bytes != [] && off + |bytes| <= |b.fragment|
      modifies this`buffered, b
      ensures Valid() && b.seqNum in old(buffered) && |old(buffered)[b.seqNum].body| == |old(b.fragment)|
      ensures buffered == old(buffered)[b.seqNum := Absorb(old(buffered)[b.seqNum], off, bytes)]
    {
      assert Slot(k);
      b.Add(off, bytes);
      buffered := buffered[b.seqNum := b.entry];
      forall i | 0 <= i < |queue.list|
        ensures Slot(i)
      {
        if i != k {
          assert queue.list[i].Key() != queue.list[k].Key() && old(Slot(i));
        }
      }
    }

    /** pqueue_insert, whose result the callers ignore: it succeeds because the number is never taken. */
    method Enqueue(b: Buffered)
      requires Valid() && b.Valid() && b.seqNum < 0x1_0000 && b.seqNum !in buffered
      modifies this`buffered, this`pool, queue, queue.list`next
      ensures Valid() && buffered == old(buffered)[b.seqNum := b.entry] && pool == old(pool) + {b}
      ensures forall i :: 0 <= i < |queue.list| ==> queue.list[i] in old(queue.list) || fresh(queue.list[i])
    {
      SameKeys(b.seqNum);
      SlotsStored();
      ghost var was := queue.list;
      ghost var item, k := InsertNew(b, buffered);
      Register(b, item, k, was);
    }

    lemma SlotsStored()
      requires Valid()
      ensures forall j :: 0 <= j < |queue.list| ==> Stored(queue.list[j], buffered)
    {
      forall j | 0 <= j < |queue.list|
        ensures Stored(queue.list[j], buffered)
      {
        assert Slot(j);
      }
    }

    /** The entry of an item that has joined the list. */
    ghost method Register(b: Buffered, item: Item<Buffered>, k: nat, was: seq<Item<Buffered>>)
      requires queue.Valid() && AllPooled(was, pool) && AllKeyed(was, buffered) && b.Valid() && b.seqNum !in buffered
      requires k <= |was| && queue.list == was[..k] + [item] + was[k..] && item.data == b && item.Key() == b.seqNum
      requires forall j :: 0 <= j < |was| ==> Stored(was[j], buffered)
      modifies this`buffered, this`pool
      ensures Valid() && buffered == old(buffered)[b.seqNum := b.entry] && pool == old(pool) + {b}
    {
      buffered, pool := buffered[b.seqNum := b.entry], pool + {b};
      ListJoined(queue.list, was, item, k, old(pool), old(buffered), b.entry);
      SlotsJoined(b, item, k, was, old(buffered));
    }

    /** The items stand for their entries once the new one has its own. */
    lemma SlotsJoined(b: Buffered, item: Item<Buffered>, k: nat, was: seq<Item<Buffered>>, entries: map<nat, Entry>)
      requires AllPooled(queue.list, pool) && b.Valid() && b.seqNum !in entries && buffered == entries[b.seqNum := b.entry]
      requires k <= |was| && queue.list == was[..k] + [item] + was[k..] && item.data == b && item.Key() == b.seqNum
      requires forall j :: 0 <= j < |was| ==> Stored(was[j], entries)
      ensures forall i {:trigger Slot(i)} :: 0 <= i < |queue.list| ==> Slot(i)
    {
      forall i | 0 <= i < |queue.list|
        ensures Slot(i)
      {
        JoinedAt(queue.list, was, item, k, i);
      }
    }

    /** The item comes to its place in the list. */
    method InsertNew(b: Buffered, ghost entries: map<nat, Entry>) returns (ghost item: Item<Buffered>, ghost k: nat)
      requires queue.Valid() && b.seqNum < 0x1_0000 && !queue.HasKey(b.seqNum)
      requires forall j :: 0 <= j < |queue.list| ==> Stored(queue.list[j], entries)
      modifies queue, queue.list`next
      ensures forall j :: 0 <= j < |old(queue.list)| ==> Stored(old(queue.list)[j], entries)
      ensures queue.Valid() && fresh(item) && item.data == b && item.Key() == b.seqNum
      ensures k <= |old(queue.list)| && queue.list == old(queue.list)[..k] + [item] + old(queue.list)[k..]
      ensures forall i :: 0 <= i < |queue.list| ==> queue.list[i] in old(queue.list) || fresh(queue.list[i])
    {
      PriorityIsNumber(b.seqNum);
      var added := new Item(Priority(b.seqNum), b);
      var ok;
      ok, k := queue.Insert(added);
      item := added;
      JoinedFrom(queue.list, old(queue.list), item, k);
    }

    /** pqueue_pop of the head. */
    method Dequeue()
      requires Valid() && queue.list != []
      modifies this`buffered, queue
      ensures Valid() && queue.list == old(queue.list)[1..]
      ensures buffered == old(buffered) - {old(queue.list)[0].Key()}
    {
      ghost var was := queue.list;
      var item := queue.Pop();
      buffered := buffered - {was[0].Key()};
      ListLeft(queue.list, was, pool, old(buffered));
      forall i | 0 <= i < |queue.list|
        ensures Slot(i)
      {
        assert queue.list[i] == was[i + 1] && old(Slot(i + 1)) && was[0].Key() < was[i + 1].Key();
      }
    }

    /** pqueue_find by message number. */
    method FindMessage(seqNum: nat) returns (b: Buffered?, ghost k: nat)
      requires Valid() && seqNum < 0x1_0000
      ensures b == null <==> seqNum !in buffered
      ensures b != null ==> k < |queue.list| && queue.list[k].data == b && b.seqNum == seqNum && Stored(queue.list[k], buffered)
    {
      PriorityIsNumber(seqNum);
      SameKeys(seqNum);
      var item;
      item, k := queue.Find(Priority(seqNum));
      if item == null {
        b := null;
      } else {
        assert Slot(k);
        b := item.data;
      }
    }

    /** The first fragment of a message opens an entry. */
    method StartMessage(p: Packet)
      requires Valid() && Whole(p) && p.header.seqNum !in buffered
      requires 0 < p.header.fragLen && p.header.fragOff + p.header.fragLen <= p.header.msgLen
      modifies this`buffered, this`pool, queue, queue.list`next
      ensures Valid() && Fresh()
      ensures buffered == old(buffered)[p.header.seqNum := Absorb(Entry(p.header.kind, Zeros(p.header.msgLen), {}), p.header.fragOff, p.bytes)]
    {
      var h := p.header;
      var b := new Buffered.Partial(h);
      b.Add(h.fragOff, p.bytes);
      Enqueue(b);
    }

    /** A message in one fragment is buffered as it is. */
    method StoreMessage(p: Packet)
      requires Valid() && Whole(p) && p.header.seqNum !in buffered && p.header.fragLen == p.header.msgLen
      modifies this`buffered, this`pool, queue, queue.list`next
      ensures Valid() && Fresh()
      ensures buffered == old(buffered)[p.header.seqNum := Entry(p.header.kind, p.bytes, Range(0, p.header.fragLen))]
    {
      var b := new Buffered.Full(p.header, p.bytes);
      Enqueue(b);
    }

    /** dtls1_reassemble_fragment */
    method ReassembleFragment(p: Packet) returns (o: Outcome)
      requires Valid() && Whole(p)
      modifies this`buffered, this`pool, queue, queue.list`next, pool
      ensures Valid() && Fresh()
      ensures (buffered, o) == Reassemble(old(buffered), maxLen, p)
    {
      var h := p.header;
      if h.fragOff + h.fragLen > h.msgLen || h.msgLen > maxLen {
        return Failed;
      }
      if h.fragLen == 0 {
        return Retry;
      }
      var b; ghost var k;
      b, k := FindMessage(h.seqNum);
      if b == null {
        StartMessage(p);
        return Retry;
      }
      if |b.fragment| != h.msgLen {
        return Failed;
      }
      if b.reassembly == None {
        return Retry;
      }
      AddTo(b, h.fragOff, p.bytes, k);
      return Retry;
    }

    /** Whether a message out of sequence is thrown away unread. */
    method Discards(h: Header) returns (discarded: bool)
      requires Valid() && FieldsFit(h) && h.fragLen <= h.msgLen
      ensures discarded == Discarded(buffered, expected, h)
    {
      var b; ghost var k;
      b, k := FindMessage(h.seqNum);
      if b != null && h.fragLen < h.msgLen {
        b := null;
      }
      discarded := h.seqNum <= expected || h.seqNum > expected + 10 || b != null || (expected == 0 && h.kind == FINISHED);
    }

    /** dtls1_process_out_of_seq_message */
    method ProcessOutOfSequence(p: Packet) returns (o: Outcome)
      requires Valid() && Whole(p)
      modifies this`buffered, this`pool, queue, queue.list`next, pool
      ensures Valid() && Fresh()
      ensures (buffered, o) == OutOfSequence(old(buffered), expected, maxLen, p)
    {
      var h := p.header;
      if h.fragOff + h.fragLen > h.msgLen {
        return Failed;
      }
      var discarded := Discards(h);
      if discarded {
        return Retry;
      }
      if h.fragLen < h.msgLen {
        o := ReassembleFragment(p);
        return;
      }
      if h.fragLen > maxLen {
        return Failed;
      }
      StoreMessage(p);
      return Retry;
    }

    /** dtls1_preprocess_fragment, which makes room, then the bytes and dtls1_get_message's header and transcript. */
    method HandOver(h: Header, bytes: seq<byte>, limit: nat) returns (o: Outcome)
      requires |bytes| == h.fragLen && h.seqNum == expected
      modifies this`initBuf, this`transcript, this`expected
      ensures h.fragOff + h.fragLen > h.msgLen || h.fragOff + h.fragLen > limit ==>
                o == Failed && initBuf == old(initBuf) && transcript == old(transcript) && expected == old(expected)
      ensures h.fragOff + h.fragLen <= h.msgLen && h.fragOff + h.fragLen <= limit ==>
                var m := Message(h.kind, h.seqNum, Overlay(Resize(old(initBuf), 12 + h.msgLen)[12..], h.fragOff, bytes));
                o == Delivered(m) && initBuf == Recorded(m) && expected == old(expected) + 1
                && transcript == old(transcript) + Recorded(m)
    {
      if h.fragOff + h.fragLen > h.msgLen || h.fragOff + h.fragLen > limit {
        return Failed;
      }
      initBuf := Resize(initBuf, 12 + h.msgLen);
      ghost var body := Overlay(initBuf[12..], h.fragOff, bytes);
      initBuf := initBuf[..12 + h.fragOff] + bytes + initBuf[12 + h.fragOff + h.fragLen..];
      assert initBuf[12..] == body;
      initBuf := EncodeHeader(Header(h.kind, h.msgLen, h.seqNum, 0, h.msgLen)) + initBuf[12..];
      assert body[0..|body|] == body;
      transcript := transcript + initBuf;
      expected := expected + 1;
      o := Delivered(Message(h.kind, h.seqNum, initBuf[12..]));
      assert initBuf[12..] == body;
    }

    /** The head of the queue tells whether the expected message is ready. */
    lemma HeadDecides()
      requires Valid()
      ensures queue.list == [] ==> !Ready(View())
      ensures queue.list != [] ==> Stored(queue.list[0], buffered)
      ensures queue.list != [] ==>
                (Ready(View()) <==> queue.list[0].data.reassembly == None && queue.list[0].data.seqNum == expected)
    {
      SameKeys(expected);
      if queue.list != [] {
        var head := queue.list[0];
        assert Slot(0);
        if Ready(View()) {
          assert head.Key() in buffered;
          var j :| 0 <= j < |queue.list| && queue.list[j].Key() == expected;
          assert head.Key() <= queue.list[j].Key();
        }
        if head.data.seqNum == expected {
          forall k | k in buffered
            ensures expected <= k
          {
            assert queue.HasKey(k);
            var j :| 0 <= j < |queue.list| && queue.list[j].Key() == k;
            assert head.Key() <= queue.list[j].Key();
          }
        }
      }
    }

    /** dtls1_retrieve_buffered_fragment; `Retry` when the queue has nothing to hand over. */
    method RetrieveBuffered(limit: nat) returns (o: Outcome)
      requires Valid()
      modifies this`buffered, this`initBuf, this`transcript, this`expected, queue
      ensures Valid()
      ensures pool == old(pool) && forall i :: 0 <= i < |queue.list| ==> queue.list[i] in old(queue.list)
      ensures !Ready(old(View())) ==> o == Retry && View() == old(View()) && queue.list == old(queue.list)
      ensures Ready(old(View())) ==> (View(), o) == Retrieve(old(View()), Config(server, maxLen, limit))
      ensures transcript == old(transcript) + if o.Delivered? then Recorded(o.message) else []
    {
      HeadDecides();
      var item := queue.Peek();
      if item == null {
        assert transcript == old(transcript) + [];
        return Retry;
      }
      var b := item.data;
      if b.reassembly.Some? || b.seqNum != expected {
        assert transcript == old(transcript) + [];
        return Retry;
      }
      o := TakeHead(b, limit);
    }

    /** The complete head leaves the queue. */
    method TakeHead(b: Buffered, limit: nat) returns (o: Outcome)
      requires Valid() && queue.list != [] && queue.list[0].data == b && Stored(queue.list[0], buffered) && b.seqNum == expected
      modifies this`buffered, this`initBuf, this`transcript, this`expected, queue
      ensures Valid() && buffered == old(buffered) - {old(expected)}
      ensures queue.list == old(queue.list)[1..]
      ensures var body := old(b.entry.body);
              if |body| > limit then
                o == Failed && initBuf == old(initBuf) && expected == old(expected) && transcript == old(transcript) + []
              else
                var m := Message(b.kind, old(expected), body);
                o == Delivered(m) && initBuf == Recorded(m) && expected == old(expected) + 1 && transcript == old(transcript) + Recorded(m)
    {
      var body := b.fragment;
      WholeOverlay(Resize(initBuf, 12 + |body|)[12..], body);
      Dequeue();
      o := HandOver(Header(b.kind, |body|, b.seqNum, 0, |body|), body, limit);
    }

    /** dtls1_get_message_fragment on a fragment just read. */
    method ReadFragment(p: Packet, limit: nat) returns (o: Outcome)
      requires Valid() && Whole(p)
      modifies this`buffered, this`initBuf, this`transcript, this`expected, this`pool, queue, queue.list`next, pool
      ensures Valid() && Fresh()
      ensures (View(), o) == Arrive(old(View()), Config(server, maxLen, limit), p)
      ensures transcript == old(transcript) + if o.Delivered? then Recorded(o.message) else []
    {
      var h := p.header;
      assert transcript == transcript + [];
      if h.seqNum != expected {
        o := ProcessOutOfSequence(p);
        return;
      }
      if h.fragLen != 0 && h.fragLen < h.msgLen {
        o := ReassembleFragment(p);
        return;
      }
      o := ReadWhole(p, limit);
    }

    /** The rest of dtls1_get_message_fragment, for a fragment of the expected message that is not a part of it. */
    method ReadWhole(p: Packet, limit: nat) returns (o: Outcome)
      requires Whole(p) && p.header.seqNum == expected && !(0 < p.header.fragLen < p.header.msgLen)
      modifies this`initBuf, this`transcript, this`expected
      ensures (View(), o) == Arrive(old(View()), Config(server, maxLen, limit), p)
      ensures transcript == old(transcript) + if o.Delivered? then Recorded(o.message) else []
    {
      var h := p.header;
      assert transcript == transcript + [];
      if !server && h.kind == HELLO_REQUEST {
        return if h.msgLen == 0 then Retry else Failed;
      }
      o := HandOver(h, p.bytes, limit);
    }

    /** One turn of dtls1_get_message: what is buffered, or else the next fragment. */
    method Turn(limit: nat) returns (o: Outcome)
      requires Valid() && forall i :: 0 <= i < |incoming| ==> Whole(incoming[i])
      modifies this`buffered, this`initBuf, this`transcript, this`expected, this`incoming, this`pool, queue, queue.list`next, pool
      ensures Valid() && Fresh()
      ensures !o.Retry? ==> (View(), o, incoming) == GetMessage(old(View()), Config(server, maxLen, limit), old(incoming))
      ensures o.Retry? ==> old(incoming) != [] && incoming == old(incoming)[1..]
      ensures o.Retry? ==> GetMessage(old(View()), Config(server, maxLen, limit), old(incoming))
                           == GetMessage(View(), Config(server, maxLen, limit), incoming)
      ensures transcript == old(transcript) + if o.Delivered? then Recorded(o.message) else []
    {
      o := RetrieveBuffered(limit);
      if !o.Retry? {
        return;
      }
      assert transcript == old(transcript) + [] == old(transcript);
      o := ReadNext(limit);
    }

    /** The next fragment, when nothing is buffered to hand over. */
    method ReadNext(limit: nat) returns (o: Outcome)
      requires Valid() && !Ready(View()) && forall i :: 0 <= i < |incoming| ==> Whole(incoming[i])
      modifies this`buffered, this`initBuf, this`transcript, this`expected, this`incoming, this`pool, queue, queue.list`next, pool
      ensures Valid() && Fresh()
      ensures !o.Retry? ==> (View(), o, incoming) == GetMessage(old(View()), Config(server, maxLen, limit), old(incoming))
      ensures o.Retry? ==> old(incoming) != [] && incoming == old(incoming)[1..]
      ensures o.Retry? ==> GetMessage(old(View()), Config(server, maxLen, limit), old(incoming))
                           == GetMessage(View(), Config(server, maxLen, limit), incoming)
      ensures transcript == old(transcript) + if o.Delivered? then Recorded(o.message) else []
    {
      if incoming == [] {
        assert transcript == old(transcript) + [];
        return Blocked;
      }
      var p := incoming[0];
      incoming := incoming[1..];
      o := ReadFragment(p, limit);
    }

    /** dtls1_get_message */
    method ReceiveMessage(limit: nat) returns (o: Outcome)
      requires Valid() && forall i :: 0 <= i < |incoming| ==> Whole(incoming[i])
      modifies this`buffered, this`initBuf, this`transcript, this`expected, this`incoming, this`pool, queue, queue.list`next, pool
      ensures Valid() && Fresh()
      ensures (View(), o, incoming) == GetMessage(old(View()), Config(server, maxLen, limit), old(incoming))
      ensures transcript == old(transcript) + if o.Delivered? then Recorded(o.message) else []
    {
      ghost var c, start, input := Config(server, maxLen, limit), View(), incoming;
      while true
        invariant Valid() && Fresh()
        invariant forall i :: 0 <= i < |incoming| ==> Whole(incoming[i])
        invariant GetMessage(View(), c, incoming) == GetMessage(start, c, input)
        invariant transcript == old(transcript)
        decreases |incoming|
      {
        o := Turn(limit);
        if !o.Retry? {
          return;
        }
        assert transcript == old(transcript) + [] == old(transcript);
      }
    }
  }

  lemma WholeOverlay(b: seq<byte>, bytes: seq<byte>)
    requires |b| == |bytes|
    ensures Overlay(b, 0, bytes) == bytes
  {
  }
}
