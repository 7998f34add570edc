/** Whole runs of the receiving half of ssl/d1_both.c on values: which messages a
    run hands over, when an entry is left behind in the queue, and which arrivals
    make a run complete. Sections 4.2.2 and 4.2.3 of RFC 6347. */
module HandshakeRuns {
  import opened ReassemblyMask
  import opened HandshakeMessages
  import opened Reassembly

  /** The receiver's settings; `limit(n)` is the longest body accepted for message n. */
  datatype Setup = Setup(server: bool, maxLen: nat, limit: nat -> nat)

  function At(u: Setup, n: nat): Config {
    Config(u.server, u.maxLen, u.limit(n))
  }

  predicate AllWhole(input: seq<Packet>) {
    forall i :: 0 <= i < |input| ==> Whole(input[i])
  }

  predicate HonestInput(input: seq<Packet>, msgs: seq<Message>) {
    forall i :: 0 <= i < |input| ==> Honest(input[i], msgs)
  }

  /** A connection before the first message. */
  function Start(): State {
    State(0, map[], [])
  }

  datatype Result = Result(final: State, delivered: seq<Message>, last: Outcome)

  function Prepend(m: Message, r: Result): Result {
    r.(delivered := [m] + r.delivered)
  }

  lemma Shrinks(m: map<nat, Entry>, k: nat)
    requires k in m
    ensures |m - {k}| < |m|
  {
    assert (m - {k}).Keys == m.Keys - {k};
    assert |(m - {k}).Keys| < |m.Keys|;
  }

  /** Calls of dtls1_get_message until one fails or the input is used up. */
  function Run(s: State, u: Setup, input: seq<Packet>): Result
    requires AllWhole(input)
    decreases |input|, |s.buffered|
  {
    var c := At(u, s.expected);
    if Ready(s) then
      Shrinks(s.buffered, s.expected);
      var (s', o) := Retrieve(s, c);
      if o.Delivered? then Prepend(o.message, Run(s', u, input)) else Result(s', [], o)
    else if input == [] then Result(s, [], Blocked)
    else
      var (s', o) := Arrive(s, c, input[0]);
      match o
      case Retry => Run(s', u, input[1..])
      case Delivered(m) => Prepend(m, Run(s', u, input[1..]))
      case _ => Result(s', [], o)
  }

  // ---------- the run, call by call ----------

  /** A call uses up input or takes an entry from the queue. */
  lemma {:induction false} GetMessageShrinks(s: State, c: Config, input: seq<Packet>)
    requires AllWhole(input)
    ensures var (s', o, rest) := GetMessage(s, c, input);
            AllWhole(rest) && (o.Delivered? ==> |rest| < |input| || (rest == input && |s'.buffered| < |s.buffered|))
    decreases |input|
  {
    if Ready(s) {
      Shrinks(s.buffered, s.expected);
    } else if input != [] {
      var (s', o) := Arrive(s, c, input[0]);
      if o.Retry? {
        GetMessageShrinks(s', c, input[1..]);
      }
    }
  }

  /** A run is its first call and the run after it. */
  lemma {:induction false} RunByCalls(s: State, u: Setup, input: seq<Packet>)
    requires AllWhole(input)
    ensures var (s', o, rest) := GetMessage(s, At(u, s.expected), input);
            AllWhole(rest) && Run(s, u, input) == if o.Delivered? then Prepend(o.message, Run(s', u, rest)) else Result(s', [], o)
    decreases |input|
  {
    GetMessageShrinks(s, At(u, s.expected), input);
    if !Ready(s) && input != [] {
      var (s', o) := Arrive(s, At(u, s.expected), input[0]);
      if o.Retry? {
        ArriveKeepsNumber(s, At(u, s.expected), input[0]);
        RunByCalls(s', u, input[1..]);
      }
    }
  }

  predicate NumberedFrom(delivered: seq<Message>, from: nat) {
    forall i :: 0 <= i < |delivered| ==> delivered[i].seqNum == from + i
  }

  lemma NumberedOn(m: Message, delivered: seq<Message>, from: nat)
    requires m.seqNum == from && NumberedFrom(delivered, from + 1)
    ensures NumberedFrom([m] + delivered, from)
  {
  }

  /** Whatever arrives: the messages handed over are numbered on from the expected one, once each, and no entry
      lies more than ten ahead. */
  lemma {:induction false} RunInSequence(s: State, u: Setup, input: seq<Packet>)
    requires AllWhole(input) && InWindow(s)
    ensures var r := Run(s, u, input);
            InWindow(r.final) && r.final.expected == s.expected + |r.delivered| && NumberedFrom(r.delivered, s.expected)
    decreases |input|, |s.buffered|
  {
    var c := At(u, s.expected);
    RunByCalls(s, u, input);
    GetMessageShrinks(s, c, input);
    GetMessageInSequence(s, c, input);
    var (s', o, rest) := GetMessage(s, c, input);
    if o.Delivered? {
      RunInSequence(s', u, rest);
      NumberedOn(o.message, Run(s', u, rest).delivered, s.expected);
    }
  }

  lemma {:induction false} RestHonest(s: State, c: Config, input: seq<Packet>, msgs: seq<Message>)
    requires AllWhole(input) && HonestInput(input, msgs)
    ensures HonestInput(GetMessage(s, c, input).2, msgs)
    decreases |input|
  {
    if !Ready(s) && input != [] {
      var (s', o) := Arrive(s, c, input[0]);
      if o.Retry? {
        RestHonest(s', c, input[1..], msgs);
      }
    }
  }

  /** From honest fragments in any order, repeated, overlapping or lost: the messages handed over are the messages sent. */
  lemma {:induction false} RunFaithful(s: State, u: Setup, input: seq<Packet>, msgs: seq<Message>)
    requires AllWhole(input) && Flight(msgs) && HonestInput(input, msgs) && Faithful(s, msgs) && s.expected <= |msgs| && InWindow(s)
    ensures PartOf(Run(s, u, input).delivered, s.expected, msgs)
    decreases |input|, |s.buffered|
  {
    var c := At(u, s.expected);
    RunByCalls(s, u, input);
    GetMessageShrinks(s, c, input);
    GetMessageInSequence(s, c, input);
    GetMessageFaithful(s, c, input, msgs);
    RestHonest(s, c, input, msgs);
    var (s', o, rest) := GetMessage(s, c, input);
    if o.Delivered? {
      RunFaithful(s', u, rest, msgs);
      LongerPart(Run(s', u, rest).delivered, s.expected, msgs);
    }
  }

  /** These are the messages from `from` on. */
  predicate PartOf(delivered: seq<Message>, from: nat, msgs: seq<Message>) {
    from + |delivered| <= |msgs| && delivered == msgs[from..from + |delivered|]
  }

  lemma LongerPart(delivered: seq<Message>, from: nat, msgs: seq<Message>)
    requires from < |msgs| && PartOf(delivered, from + 1, msgs)
    ensures PartOf([msgs[from]] + delivered, from, msgs)
  {
    assert [msgs[from]] + msgs[from + 1..from + 1 + |delivered|] == msgs[from..from + 1 + |delivered|];
  }

  // ---------- entries left behind ----------

  /** At some point of the run a message is handed over whole while a part of it is queued. */
  predicate Orphans(s: State, u: Setup, input: seq<Packet>)
    requires AllWhole(input)
    decreases |input|, |s.buffered|
  {
    var c := At(u, s.expected);
    if Ready(s) then
      Shrinks(s.buffered, s.expected);
      var (s', o) := Retrieve(s, c);
      o.Delivered? && Orphans(s', u, input)
    else
      input != []
      && var (s', o) := Arrive(s, c, input[0]);
         match o
         case Retry => Orphans(s', u, input[1..])
         case Delivered(_) => s.expected in s.buffered || Orphans(s', u, input[1..])
         case _ => false
  }

  lemma ArriveOrphans(s: State, c: Config, p: Packet)
    requires Whole(p)
    ensures var (s', o) := Arrive(s, c, p);
            Stale(s') <==> Stale(s) || (o.Delivered? && s.expected in s.buffered)
  {
    var (s', o) := Arrive(s, c, p);
    if Stale(s) {
      var k :| k in s.buffered && k < s.expected;
      assert k in s'.buffered;
    }
    if o.Delivered? && s.expected in s.buffered {
      assert s.expected in s'.buffered && s.expected < s'.expected;
    }
  }

  lemma RetrieveOrphans(s: State, c: Config)
    requires Ready(s)
    ensures !Stale(s) && !Stale(Retrieve(s, c).0)
  {
  }

  /** An entry is left behind exactly when a message is handed over whole while a part of it is queued; then it stays. */
  lemma {:induction false} StaleIffOrphans(s: State, u: Setup, input: seq<Packet>)
    requires AllWhole(input)
    ensures Stale(Run(s, u, input).final) <==> Stale(s) || Orphans(s, u, input)
    decreases |input|, |s.buffered|
  {
    var c := At(u, s.expected);
    if Ready(s) {
      RetrieveOrphans(s, c);
      Shrinks(s.buffered, s.expected);
      var (s', o) := Retrieve(s, c);
      if o.Delivered? {
        StaleIffOrphans(s', u, input);
      }
    } else if input != [] {
      ArriveOrphans(s, c, input[0]);
      var (s', o) := Arrive(s, c, input[0]);
      if o.Retry? || o.Delivered? {
        StaleIffOrphans(s', u, input[1..]);
      }
    }
  }

  /** A part of one message, that message whole, then the next message in two parts: the first is handed over,
      the second never, although every byte of it arrived. */
  lemma StaleEntryBlocks(u: Setup, m0: Message, m1: Message)
    requires |m0.body| == 2 && |m1.body| == 2 && Flight([m0, m1]) && AllAcceptable([m0, m1], u) && m1.kind != 20
    ensures var input := [Fragment(m0, 0, 1), Fragment(m0, 0, 2), Fragment(m1, 0, 1), Fragment(m1, 1, 1)];
            AllWhole(input) && AllCovered(2, Coverage(input, 1)) && Orphans(Start(), u, input)
            && Run(Start(), u, input).delivered == [m0] && Run(Start(), u, input).last == Blocked
  {
    var p0, p1, p2, p3 := Fragment(m0, 0, 1), Fragment(m0, 0, 2), Fragment(m1, 0, 1), Fragment(m1, 1, 1);
    var input := [p0, p1, p2, p3];
    assert [m0, m1][0] == m0 && [m0, m1][1] == m1;
    assert AllWhole(input);
    var s1 := Arrive(Start(), At(u, 0), p0).0;
    assert 1 !in s1.buffered[0].covered;
    var s2 := Arrive(s1, At(u, 0), p1).0;
    OneFragment(p1, m0, Resize(s1.initBuf, 14)[12..]);
    assert Arrive(s1, At(u, 0), p1).1 == Delivered(m0);
    var s3 := Arrive(s2, At(u, 1), p2).0;
    var s4 := Arrive(s3, At(u, 1), p3).0;
    assert input[1..] == [p1, p2, p3] && [p1, p2, p3][1..] == [p2, p3] && [p2, p3][1..] == [p3] && [p3][1..] == [];
    assert 0 in s2.buffered && 0 in s3.buffered && 0 in s4.buffered;
    assert Run(s4, u, []) == Result(s4, [], Blocked);
    assert Run(s3, u, [p3]) == Run(s4, u, []);
    assert Run(s2, u, [p2, p3]) == Run(s3, u, [p3]);
    assert Run(s1, u, [p1, p2, p3]) == Prepend(m0, Run(s2, u, [p2, p3]));
    LastTwoCover(p0, p1, p2, p3, 1);
  }

  /** A part of a later message, that message whole, then the one before it: the whole message is thrown away because its
      number is queued already, and it is never handed over although every byte of it arrived and no entry stays behind. */
  lemma WholeThrownAway(u: Setup, m0: Message, m1: Message)
    requires |m0.body| == 2 && |m1.body| == 2 && Flight([m0, m1]) && AllAcceptable([m0, m1], u) && m1.kind != 20
    ensures var input := [Fragment(m1, 0, 1), Fragment(m1, 0, 2), Fragment(m0, 0, 2)];
            AllWhole(input) && AllCovered(2, Coverage(input, 1)) && !Orphans(Start(), u, input)
            && Run(Start(), u, input).delivered == [m0] && Run(Start(), u, input).last == Blocked
            && !Stale(Run(Start(), u, input).final)
  {
    var p0, p1, p2 := Fragment(m1, 0, 1), Fragment(m1, 0, 2), Fragment(m0, 0, 2);
    var input := [p0, p1, p2];
    assert [m0, m1][0] == m0 && [m0, m1][1] == m1;
    assert AllWhole(input);
    var s1 := Arrive(Start(), At(u, 0), p0).0;
    assert 1 !in s1.buffered[1].covered;
    assert Arrive(s1, At(u, 0), p1) == (s1, Retry);
    var s2 := Arrive(s1, At(u, 0), p2).0;
    OneFragment(p2, m0, Resize(s1.initBuf, 14)[12..]);
    assert Arrive(s1, At(u, 0), p2).1 == Delivered(m0);
    assert input[1..] == [p1, p2] && [p1, p2][1..] == [p2] && [p2][1..] == [];
    assert s2.expected == 1 && s2.buffered == s1.buffered;
    assert Run(s2, u, []) == Result(s2, [], Blocked);
    assert Run(s1, u, [p2]) == Prepend(m0, Run(s2, u, []));
    assert Run(s1, u, [p1, p2]) == Run(s1, u, [p2]);
    StaleIffOrphans(Start(), u, input);
    assert Coverage(input, 1) == Part(p0, 1) + Coverage([p1, p2], 1);
    assert Coverage([p1, p2], 1) == Part(p1, 1) + Coverage([p2], 1);
  }

  lemma LastTwoCover(p0: Packet, p1: Packet, p2: Packet, p3: Packet, k: nat)
    ensures Part(p2, k) + Part(p3, k) <= Coverage([p0, p1, p2, p3], k)
  {
    assert [p0, p1, p2, p3][1..] == [p1, p2, p3] && [p1, p2, p3][1..] == [p2, p3] && [p2, p3][1..] == [p3];
    assert Coverage([p2, p3], k) == Part(p2, k) + Coverage([p3], k);
    assert Coverage([p3], k) == Part(p3, k) + Coverage([p3][1..], k);
  }

  predicate AllAcceptable(msgs: seq<Message>, u: Setup) {
    forall i :: 0 <= i < |msgs| ==> Acceptable(msgs[i], At(u, i))
  }

  // ---------- what a complete run takes ----------

  /** The fragments bring message `k` whole. */
  predicate Has(ps: seq<Packet>, m: Message, k: nat) {
    Arrives(ps, k) && AllCovered(|m.body|, Coverage(ps, k))
  }

  /** How many messages from `n` on the fragments bring without a gap, and `n`. */
  function Lead(ps: seq<Packet>, msgs: seq<Message>, n: nat): (r: nat)
    requires n <= |msgs|
    ensures n <= r <= |msgs|
    decreases |msgs| - n
  {
    if n < |msgs| && Has(ps, msgs[n], n) then Lead(ps, msgs, n + 1) else n
  }

  /** A fragment that is not thrown away unread when `n` messages were handed over: at most ten ahead, and no
      Finished ahead of the first message. */
  predicate InTime(p: Packet, n: nat) {
    p.header.seqNum <= n || (p.header.seqNum <= n + 10 && !(n == 0 && p.header.kind == 20))
  }

  /** A whole message ahead of its turn that is thrown away, because something of it was taken before. */
  predicate Thrown(ks: seq<Packet>, p: Packet, n: nat) {
    IsWhole(p) && n < p.header.seqNum && Arrives(ks, p.header.seqNum)
  }

  /** The fragments taken after one more arrived when `n` messages were handed over. */
  function Taken(ks: seq<Packet>, p: Packet, n: nat): seq<Packet> {
    if InTime(p, n) && !Thrown(ks, p, n) then ks + [p] else ks
  }

  /** The expected message comes whole after a part of it was taken: it is handed over and the part stays in the queue. */
  predicate Bypasses(ks: seq<Packet>, p: Packet, n: nat) {
    IsWhole(p) && p.header.seqNum == n && Arrives(ks, n)
  }

  /** How far whole messages go on from `n` when each must come in its turn. */
  function InTurn(input: seq<Packet>, n: nat): (r: nat)
    ensures n <= r
    decreases |input|
  {
    if input == [] then n else InTurn(input[1..], if IsWhole(input[0]) && input[0].header.seqNum == n then n + 1 else n)
  }

  /** How many messages a run hands over, from the fragments alone: those brought without a gap by the fragments taken,
      until a message bypasses its own queued part; from there on only whole messages in their turn. */
  function Reach(ks: seq<Packet>, input: seq<Packet>, msgs: seq<Message>): nat
    decreases |input|
  {
    var n := Lead(ks, msgs, 0);
    if input == [] then n
    else if Bypasses(ks, input[0], n) then InTurn(input, n)
    else Reach(Taken(ks, input[0], n), input[1..], msgs)
  }

  /** Some message bypasses its own queued part. */
  predicate Stalls(ks: seq<Packet>, input: seq<Packet>, msgs: seq<Message>)
    decreases |input|
  {
    input != []
    && var n := Lead(ks, msgs, 0);
       Bypasses(ks, input[0], n) || Stalls(Taken(ks, input[0], n), input[1..], msgs)
  }

  /** No message comes both whole and in part. */
  predicate Unmixed(ps: seq<Packet>) {
    forall p, q :: p in ps && q in ps && p.header.seqNum == q.header.seqNum ==> (IsWhole(p) <==> IsWhole(q))
  }

  /** The entry of message `k` holds exactly what the fragments brought of it. */
  predicate Follows(b: map<nat, Entry>, ks: seq<Packet>, k: nat) {
    (k in b <==> Arrives(ks, k)) && (k in b ==> b[k].covered == Coverage(ks, k))
  }

  /** The state after fragments `ks`: messages below the expected one were brought whole, the others are as far as brought. */
  predicate Tracks(s: State, ks: seq<Packet>, msgs: seq<Message>) {
    s.expected <= |msgs| && Faithful(s, msgs) && !Stale(s) && HonestInput(ks, msgs)
    && (forall k :: 0 <= k < s.expected ==> Has(ks, msgs[k], k))
    && (forall k :: s.expected <= k < |msgs| ==> Follows(s.buffered, ks, k))
  }

  lemma {:induction false} CoverageAppend(ps: seq<Packet>, p: Packet, k: nat)
    ensures Coverage(ps + [p], k) == Coverage(ps, k) + Part(p, k)
    ensures Arrives(ps + [p], k) <==> Arrives(ps, k) || p.header.seqNum == k
  {
    if ps == [] {
      assert ([p])[1..] == [] && ps + [p] == [p];
      assert Coverage([p], k) == Part(p, k) + Coverage([p][1..], k);
    } else {
      assert (ps + [p])[1..] == ps[1..] + [p];
      CoverageAppend(ps[1..], p, k);
    }
    ArrivesAppend(ps, p, k);
  }

  lemma ArrivesAppend(ps: seq<Packet>, p: Packet, k: nat)
    ensures Arrives(ps + [p], k) <==> Arrives(ps, k) || p.header.seqNum == k
  {
    var all := ps + [p];
    if Arrives(ps, k) {
      var i :| 0 <= i < |ps| && ps[i].header.seqNum == k;
      assert all[i] == ps[i];
    }
    if p.header.seqNum == k {
      assert all[|ps|] == p;
    }
  }

  lemma {:induction false} CoverageMember(ps: seq<Packet>, k: nat, x: nat)
    ensures x in Coverage(ps, k) <==> exists p :: p in ps && x in Part(p, k)
  {
    if ps != [] {
      CoverageMember(ps[1..], k, x);
      assert ps == [ps[0]] + ps[1..];
    }
  }

  /** More fragments bring more. */
  lemma HasInMore(a: seq<Packet>, b: seq<Packet>, m: Message, k: nat)
    requires Has(a, m, k) && forall p :: p in a ==> p in b
    ensures Has(b, m, k)
  {
    var i :| 0 <= i < |a| && a[i].header.seqNum == k;
    assert a[i] in b;
    var j :| 0 <= j < |b| && b[j] == a[i];
    forall x: nat | x < |m.body|
      ensures x in Coverage(b, k)
    {
      CoverageMember(a, k, x);
      CoverageMember(b, k, x);
    }
  }

  /** Honest fragments bring nothing beyond the end of the message. */
  lemma {:induction false} CoverageInside(ps: seq<Packet>, msgs: seq<Message>, k: nat)
    requires HonestInput(ps, msgs) && k < |msgs|
    ensures Coverage(ps, k) <= Range(0, |msgs[k].body|)
  {
    if ps != [] {
      assert Honest(ps[0], msgs);
      CoverageInside(ps[1..], msgs, k);
    }
  }

  /** One whole fragment brings everything. */
  lemma {:induction false} WholeCovers(ps: seq<Packet>, msgs: seq<Message>, p: Packet)
    requires HonestInput(ps, msgs) && p in ps && IsWhole(p)
    ensures p.header.seqNum < |msgs| && AllCovered(|msgs[p.header.seqNum].body|, Coverage(ps, p.header.seqNum))
  {
    var i :| 0 <= i < |ps| && ps[i] == p;
    assert Honest(ps[i], msgs);
    if ps[0] != p {
      assert p in ps[1..];
      WholeCovers(ps[1..], msgs, p);
    }
  }

  lemma HasGrows(ps: seq<Packet>, p: Packet, m: Message, k: nat)
    requires Has(ps, m, k)
    ensures Has(ps + [p], m, k)
  {
    CoverageAppend(ps, p, k);
  }

  /** Messages brought whole move the lead on. */
  lemma {:induction false} LeadSkips(ps: seq<Packet>, msgs: seq<Message>, n: nat, e: nat)
    requires n <= e <= |msgs| && forall k :: n <= k < e ==> Has(ps, msgs[k], k)
    ensures Lead(ps, msgs, n) == Lead(ps, msgs, e)
    decreases e - n
  {
    if n < e {
      LeadSkips(ps, msgs, n + 1, e);
    }
  }

  /** A receiver with nothing to hand over has handed over exactly the lead. */
  lemma LeadIsExpected(s: State, ks: seq<Packet>, msgs: seq<Message>)
    requires Tracks(s, ks, msgs) && !Ready(s)
    ensures Lead(ks, msgs, 0) == s.expected
  {
    LeadSkips(ks, msgs, 0, s.expected);
    if s.expected < |msgs| {
      assert Follows(s.buffered, ks, s.expected);
    }
  }

  lemma RetrieveTracks(s: State, c: Config, ks: seq<Packet>, msgs: seq<Message>)
    requires Flight(msgs) && Tracks(s, ks, msgs) && Ready(s) && s.expected < |msgs| && Acceptable(msgs[s.expected], c)
    ensures Retrieve(s, c).1 == Delivered(msgs[s.expected]) && Tracks(Retrieve(s, c).0, ks, msgs)
  {
    var e, m := s.expected, msgs[s.expected];
    RetrieveFaithful(s, c, msgs);
    RetrieveOrphans(s, c);
    CompleteEntry(s.buffered[e], m);
    assert Follows(s.buffered, ks, e);
    var s' := Retrieve(s, c).0;
    forall k | s'.expected <= k < |msgs|
      ensures Follows(s'.buffered, ks, k)
    {
      assert Follows(s.buffered, ks, k);
    }
  }

  lemma {:induction false} NothingBrought(ps: seq<Packet>, k: nat)
    requires !Arrives(ps, k)
    ensures Coverage(ps, k) == {}
  {
    if ps != [] {
      assert ps[0].header.seqNum != k;
      assert forall i :: 0 <= i < |ps[1..]| ==> ps[1..][i] == ps[i + 1];
      NothingBrought(ps[1..], k);
    }
  }

  /** Two maps that agree but for one key. */
  ghost predicate SameBut(b: map<nat, Entry>, b': map<nat, Entry>, key: nat) {
    forall k :: k != key ==> (k in b <==> k in b') && (k in b ==> b[k] == b'[k])
  }

  /** The entries of other messages are as before. */
  lemma OthersFollow(b: map<nat, Entry>, b': map<nat, Entry>, ks: seq<Packet>, p: Packet, k: nat)
    requires SameBut(b, b', p.header.seqNum) && k != p.header.seqNum && Follows(b, ks, k)
    ensures Follows(b', ks + [p], k) && Follows(b', ks, k)
  {
    CoverageAppend(ks, p, k);
    assert k in b <==> k in b';
  }

  /** A part of a message joins its entry. */
  lemma PartFollows(b: map<nat, Entry>, maxLen: nat, p: Packet, ks: seq<Packet>, msgs: seq<Message>)
    requires Flight(msgs) && Honest(p, msgs) && Whole(p) && HonestInput(ks, msgs) && AllEntries(b, msgs) && !IsWhole(p)
    requires p.header.msgLen <= maxLen && Follows(b, ks, p.header.seqNum)
    ensures var (b', o) := Reassemble(b, maxLen, p);
            o == Retry && SameBut(b, b', p.header.seqNum) && Follows(b', ks + [p], p.header.seqNum)
  {
    var k := p.header.seqNum;
    CoverageAppend(ks, p, k);
    if k in b {
      if Complete(b[k]) {
        assert Part(p, k) <= Coverage(ks, k);
      }
    } else {
      NothingBrought(ks, k);
    }
  }

  /** A whole message ahead of its turn is stored. */
  lemma WholeFollows(b: map<nat, Entry>, p: Packet, ks: seq<Packet>, msgs: seq<Message>)
    requires Flight(msgs) && Honest(p, msgs) && Whole(p) && IsWhole(p)
    requires Follows(b, ks, p.header.seqNum) && !Arrives(ks, p.header.seqNum)
    ensures var k := p.header.seqNum;
            k !in b && Follows(b[k := Entry(p.header.kind, p.bytes, Range(0, p.header.fragLen))], ks + [p], k)
  {
    CoverageAppend(ks, p, p.header.seqNum);
    NothingBrought(ks, p.header.seqNum);
  }

  /** Without mixture, what came before a whole fragment was whole as well. */
  lemma BroughtWhole(ks: seq<Packet>, p: Packet, msgs: seq<Message>)
    requires HonestInput(ks, msgs) && IsWhole(p) && Unmixed(ks + [p]) && Arrives(ks, p.header.seqNum)
    ensures p.header.seqNum < |msgs| && AllCovered(|msgs[p.header.seqNum].body|, Coverage(ks, p.header.seqNum))
  {
    var i :| 0 <= i < |ks| && ks[i].header.seqNum == p.header.seqNum;
    assert ks[i] in ks + [p] && p in ks + [p];
    WholeCovers(ks, msgs, ks[i]);
  }

  /** What a fragment that hands nothing over does to the queue: its entry follows, if it is taken. */
  ghost predicate Noticed(b: map<nat, Entry>, b': map<nat, Entry>, p: Packet, ks: seq<Packet>, n: nat) {
    (if !InTime(p, n) || Thrown(ks, p, n) then b' == b else n <= p.header.seqNum ==> Follows(b', ks + [p], p.header.seqNum))
  }

  /** A fragment of another message than the expected one. */
  lemma ElsewhereTracks(s: State, c: Config, p: Packet, ks: seq<Packet>, msgs: seq<Message>)
    requires Flight(msgs) && Honest(p, msgs) && Whole(p) && Tracks(s, ks, msgs) && p.header.seqNum != s.expected
    requires p.header.msgLen <= c.maxLen
    ensures var (b, o) := OutOfSequence(s.buffered, s.expected, c.maxLen, p);
            o == Retry && SameBut(s.buffered, b, p.header.seqNum) && Noticed(s.buffered, b, p, ks, s.expected)
  {
    var k := p.header.seqNum;
    if s.expected < k && InTime(p, s.expected) {
      assert Follows(s.buffered, ks, k);
      if IsWhole(p) {
        if !Arrives(ks, k) {
          WholeFollows(s.buffered, p, ks, msgs);
        }
      } else {
        PartFollows(s.buffered, c.maxLen, p, ks, msgs);
      }
    }
  }

  /** The invariant after a fragment that handed nothing over. */
  lemma StillTracks(s: State, s': State, p: Packet, ks: seq<Packet>, msgs: seq<Message>)
    requires Tracks(s, ks, msgs) && s'.expected == s.expected && Faithful(s', msgs) && !Stale(s') && Honest(p, msgs)
    requires SameBut(s.buffered, s'.buffered, p.header.seqNum)
    requires Noticed(s.buffered, s'.buffered, p, ks, s.expected)
    ensures Tracks(s', Taken(ks, p, s.expected), msgs)
  {
    var ks' := Taken(ks, p, s.expected);
    forall k | 0 <= k < s.expected
      ensures Has(ks', msgs[k], k)
    {
      HasGrows(ks, p, msgs[k], k);
    }
    forall k | s.expected <= k < |msgs|
      ensures Follows(s'.buffered, ks', k)
    {
      assert Follows(s.buffered, ks, k);
      if k != p.header.seqNum {
        OthersFollow(s.buffered, s'.buffered, ks, p, k);
      }
    }
  }

  /** The invariant after the expected message came whole. */
  lemma TracksPast(s: State, s': State, p: Packet, ks: seq<Packet>, msgs: seq<Message>)
    requires Tracks(s, ks, msgs) && s'.expected == s.expected + 1 <= |msgs| && s'.buffered == s.buffered
    requires Honest(p, msgs) && p.header.seqNum == s.expected && IsWhole(p) && s.expected !in s.buffered
    ensures Tracks(s', ks + [p], msgs)
  {
    var ks' := ks + [p];
    forall k | 0 <= k < s'.expected
      ensures Has(ks', msgs[k], k)
    {
      if k < s.expected {
        HasGrows(ks, p, msgs[k], k);
      } else {
        CoverageAppend(ks, p, k);
        assert p in ks';
        WholeCovers(ks', msgs, p);
      }
    }
    forall k | s'.expected <= k < |msgs|
      ensures Follows(s'.buffered, ks', k)
    {
      assert Follows(s.buffered, ks, k);
      OthersFollow(s.buffered, s'.buffered, ks, p, k);
    }
  }

  /** One fragment, with nothing ready, that bypasses nothing: the expected message came whole, or the entries follow. */
  lemma ArriveTracks(s: State, c: Config, p: Packet, ks: seq<Packet>, msgs: seq<Message>)
    requires Flight(msgs) && Honest(p, msgs) && Tracks(s, ks, msgs) && !Ready(s) && !Bypasses(ks, p, s.expected)
    requires p.header.msgLen <= c.maxLen && (s.expected < |msgs| ==> Acceptable(msgs[s.expected], c))
    ensures Whole(p)
    ensures var (s', o) := Arrive(s, c, p);
            Tracks(s', Taken(ks, p, s.expected), msgs)
            && (if p.header.seqNum == s.expected && IsWhole(p) then o == Delivered(msgs[s.expected]) && s.expected !in s.buffered
                else o == Retry && s'.expected == s.expected)
  {
    HonestIsWhole(p, msgs);
    ArriveFaithful(s, c, p, msgs);
    ArriveOrphans(s, c, p);
    var (s', o) := Arrive(s, c, p);
    var k := p.header.seqNum;
    if k != s.expected {
      ElsewhereTracks(s, c, p, ks, msgs);
      StillTracks(s, s', p, ks, msgs);
    } else {
      assert Follows(s.buffered, ks, k);
      if IsWhole(p) {
        TracksPast(s, s', p, ks, msgs);
      } else {
        PartFollows(s.buffered, c.maxLen, p, ks, msgs);
        StillTracks(s, s', p, ks, msgs);
      }
    }
  }

  lemma UnmixedPart(a: seq<Packet>, b: seq<Packet>)
    requires Unmixed(a) && forall p :: p in b ==> p in a
    ensures Unmixed(b)
  {
  }

  /** A result that hands over the messages from `from` up to `n` and then waits. */
  predicate HandsOverTo(r: Result, from: nat, n: nat, msgs: seq<Message>) {
    from <= n <= |msgs| && r.delivered == msgs[from..n] && r.last == Blocked
  }

  lemma OneMore(r: Result, from: nat, n: nat, msgs: seq<Message>)
    requires from < |msgs| && HandsOverTo(r, from + 1, n, msgs)
    ensures HandsOverTo(Prepend(msgs[from], r), from, n, msgs)
  {
    assert [msgs[from]] + msgs[from + 1..n] == msgs[from..n];
  }

  /** The run hands over exactly as many messages as the fragments say, and leaves an entry behind exactly when they do. */
  predicate Completes(s: State, u: Setup, ks: seq<Packet>, input: seq<Packet>, msgs: seq<Message>)
    requires AllWhole(input)
  {
    HandsOverTo(Run(s, u, input), s.expected, Reach(ks, input, msgs), msgs) && (Orphans(s, u, input) <==> Stalls(ks, input, msgs))
  }

  lemma RetrieveCompletes(s: State, u: Setup, ks: seq<Packet>, input: seq<Packet>, msgs: seq<Message>)
    requires Flight(msgs) && AllWhole(input) && Ready(s) && s.expected < |msgs|
    requires Retrieve(s, At(u, s.expected)).1 == Delivered(msgs[s.expected])
    requires Completes(Retrieve(s, At(u, s.expected)).0, u, ks, input, msgs)
    ensures Completes(s, u, ks, input, msgs)
  {
    OneMore(Run(Retrieve(s, At(u, s.expected)).0, u, input), s.expected, Reach(ks, input, msgs), msgs);
  }

  lemma ArriveCompletes(s: State, u: Setup, ks: seq<Packet>, input: seq<Packet>, msgs: seq<Message>, s': State, o: Outcome)
    requires AllWhole(input) && input != [] && !Ready(s) && Lead(ks, msgs, 0) == s.expected && !Bypasses(ks, input[0], s.expected)
    requires (s', o) == Arrive(s, At(u, s.expected), input[0])
    requires Completes(s', u, Taken(ks, input[0], s.expected), input[1..], msgs)
    requires o == Retry ==> s'.expected == s.expected
    requires o != Retry ==> s.expected < |msgs| && o == Delivered(msgs[s.expected]) && s.expected !in s.buffered && s'.expected == s.expected + 1
    ensures Completes(s, u, ks, input, msgs)
  {
    ArriveRuns(s, u, input);
    if o.Delivered? {
      OneMore(Run(s', u, input[1..]), s.expected, Reach(ks, input, msgs), msgs);
    }
  }

  /** A result is the next one, with one more message before it if the number moved on. */
  predicate GoesOn(r: Result, from: nat, r': Result, from': nat, msgs: seq<Message>) {
    if from' == from then r == r' else from' == from + 1 <= |msgs| && r == Prepend(msgs[from], r')
  }

  lemma GoneOn(r: Result, from: nat, r': Result, from': nat, n: nat, msgs: seq<Message>)
    requires GoesOn(r, from, r', from', msgs) && HandsOverTo(r', from', n, msgs)
    ensures HandsOverTo(r, from, n, msgs)
  {
    if from' > from {
      OneMore(r', from, n, msgs);
    }
  }

  lemma StaleEnd(s: State, u: Setup, msgs: seq<Message>)
    requires Stale(s) && s.expected <= |msgs|
    ensures HandsOverTo(Run(s, u, []), s.expected, s.expected, msgs)
  {
  }

  /** The run behind an entry left over, after its first fragment. */
  lemma StaleStep(s: State, u: Setup, input: seq<Packet>, msgs: seq<Message>) returns (s': State)
    requires Flight(msgs) && AllAcceptable(msgs, u) && AllWhole(input) && HonestInput(input, msgs) && input != []
    requires Faithful(s, msgs) && Stale(s) && s.expected <= |msgs|
    ensures Faithful(s', msgs) && Stale(s') && s'.expected <= |msgs| && HonestInput(input[1..], msgs)
    ensures InTurn(input, s.expected) == InTurn(input[1..], s'.expected)
    ensures GoesOn(Run(s, u, input), s.expected, Run(s', u, input[1..]), s'.expected, msgs)
  {
    var p, c := input[0], At(u, s.expected);
    assert Honest(p, msgs) && Acceptable(msgs[p.header.seqNum], At(u, p.header.seqNum));
    ArriveStale(s, c, p, msgs);
    ArriveFaithful(s, c, p, msgs);
    ArriveRuns(s, u, input);
    s' := Arrive(s, c, p).0;
  }

  /** Behind an entry left over, a run hands over the whole messages that come in their turn and nothing else. */
  lemma {:induction false} StaleRun(s: State, u: Setup, input: seq<Packet>, msgs: seq<Message>)
    requires Flight(msgs) && AllAcceptable(msgs, u) && AllWhole(input) && HonestInput(input, msgs)
    requires Faithful(s, msgs) && Stale(s) && s.expected <= |msgs|
    ensures HandsOverTo(Run(s, u, input), s.expected, InTurn(input, s.expected), msgs)
    decreases |input|
  {
    if input == [] {
      StaleEnd(s, u, msgs);
    } else {
      var s' := StaleStep(s, u, input, msgs);
      StaleRun(s', u, input[1..], msgs);
      GoneOn(Run(s, u, input), s.expected, Run(s', u, input[1..]), s'.expected, InTurn(input, s.expected), msgs);
    }
  }

  lemma ArriveBypass(s: State, c: Config, p: Packet, ks: seq<Packet>, msgs: seq<Message>)
    requires Flight(msgs) && Honest(p, msgs) && Tracks(s, ks, msgs) && Bypasses(ks, p, s.expected) && Acceptable(msgs[s.expected], c)
    ensures Whole(p) && s.expected in s.buffered
    ensures var (s', o) := Arrive(s, c, p);
            o == Delivered(msgs[s.expected]) && Faithful(s', msgs) && Stale(s') && s'.expected == s.expected + 1
  {
    assert Follows(s.buffered, ks, s.expected);
    ArriveFaithful(s, c, p, msgs);
    ArriveOrphans(s, c, p);
  }

  /** The expected message comes whole while a part of it is queued: it is handed over, and the part stays. */
  lemma BypassStep(s: State, u: Setup, ks: seq<Packet>, input: seq<Packet>, msgs: seq<Message>) returns (s': State)
    requires Flight(msgs) && AllAcceptable(msgs, u) && AllWhole(input) && HonestInput(input, msgs) && input != []
    requires Tracks(s, ks, msgs) && !Ready(s) && Bypasses(ks, input[0], s.expected)
    ensures Faithful(s', msgs) && Stale(s') && s'.expected == s.expected + 1 <= |msgs| && HonestInput(input[1..], msgs)
    ensures InTurn(input, s.expected) == InTurn(input[1..], s'.expected)
    ensures GoesOn(Run(s, u, input), s.expected, Run(s', u, input[1..]), s'.expected, msgs) && Orphans(s, u, input)
  {
    var p, c := input[0], At(u, s.expected);
    assert Honest(p, msgs) && Acceptable(msgs[s.expected], c);
    ArriveBypass(s, c, p, ks, msgs);
    ArriveRuns(s, u, input);
    s' := Arrive(s, c, p).0;
  }

  lemma BypassCompletes(s: State, u: Setup, ks: seq<Packet>, input: seq<Packet>, msgs: seq<Message>)
    requires Flight(msgs) && AllAcceptable(msgs, u) && AllWhole(input) && HonestInput(input, msgs) && input != []
    requires Tracks(s, ks, msgs) && !Ready(s) && Lead(ks, msgs, 0) == s.expected && Bypasses(ks, input[0], s.expected)
    ensures Completes(s, u, ks, input, msgs)
  {
    var s' := BypassStep(s, u, ks, input, msgs);
    StaleRun(s', u, input[1..], msgs);
    GoneOn(Run(s, u, input), s.expected, Run(s', u, input[1..]), s'.expected, InTurn(input, s.expected), msgs);
  }

  /** A run whose first step is a fragment that fails nothing. */
  lemma ArriveRuns(s: State, u: Setup, input: seq<Packet>)
    requires AllWhole(input) && input != [] && !Ready(s)
    requires var o := Arrive(s, At(u, s.expected), input[0]).1; o.Retry? || o.Delivered?
    ensures var (s', o) := Arrive(s, At(u, s.expected), input[0]);
            var r := Run(s', u, input[1..]);
            Run(s, u, input) == (if o.Delivered? then Prepend(o.message, r) else r)
            && (Orphans(s, u, input) <==> (o.Delivered? && s.expected in s.buffered) || Orphans(s', u, input[1..]))
  {
  }

  /** From any state that follows its fragments: whatever honest fragments arrive, in whatever order and however cut, how
      many messages the run hands over is decided by the fragments alone. */
  lemma {:induction false} RunDelivers(s: State, u: Setup, ks: seq<Packet>, input: seq<Packet>, msgs: seq<Message>)
    requires Flight(msgs) && AllAcceptable(msgs, u) && Tracks(s, ks, msgs) && AllWhole(input) && HonestInput(input, msgs)
    ensures Completes(s, u, ks, input, msgs)
    decreases |input|, |s.buffered|
  {
    var c := At(u, s.expected);
    if Ready(s) {
      RetrieveTracks(s, c, ks, msgs);
      Shrinks(s.buffered, s.expected);
      RunDelivers(Retrieve(s, c).0, u, ks, input, msgs);
      RetrieveCompletes(s, u, ks, input, msgs);
    } else {
      LeadIsExpected(s, ks, msgs);
      if input == [] {
        EndCompletes(s, u, ks, msgs);
      } else if Bypasses(ks, input[0], s.expected) {
        BypassCompletes(s, u, ks, input, msgs);
      } else {
        var p := input[0];
        assert Honest(p, msgs) && Acceptable(msgs[p.header.seqNum], At(u, p.header.seqNum));
        ArriveTracks(s, c, p, ks, msgs);
        var (s', o) := Arrive(s, c, p);
        RunDelivers(s', u, Taken(ks, p, s.expected), input[1..], msgs);
        ArriveCompletes(s, u, ks, input, msgs, s', o);
      }
    }
  }

  lemma EndCompletes(s: State, u: Setup, ks: seq<Packet>, msgs: seq<Message>)
    requires !Ready(s) && Lead(ks, msgs, 0) == s.expected
    ensures Completes(s, u, ks, [], msgs)
  {
  }

  lemma StartTracks(msgs: seq<Message>)
    ensures Tracks(Start(), [], msgs)
  {
  }

  // ---------- arrivals that complete a run ----------

  /** Every fragment is in time. */
  predicate Punctual(ks: seq<Packet>, input: seq<Packet>, msgs: seq<Message>)
    decreases |input|
  {
    input == [] || (InTime(input[0], Lead(ks, msgs, 0)) && Punctual(ks + [input[0]], input[1..], msgs))
  }

  /** No Finished ahead of its turn comes before the first message was brought. */
  predicate NoEarlyFinished(ks: seq<Packet>, input: seq<Packet>, msgs: seq<Message>)
    requires msgs != []
  {
    forall i :: 0 <= i < |input| ==>
      input[i].header.kind == 20 && input[i].header.seqNum > 0 ==> Has(ks + input[..i], msgs[0], 0)
  }

  /** At most eleven messages are all in time but for an early Finished. */
  lemma {:induction false} ShortFlightPunctual(ks: seq<Packet>, input: seq<Packet>, msgs: seq<Message>)
    requires HonestInput(input, msgs) && 0 < |msgs| <= 11 && NoEarlyFinished(ks, input, msgs)
    ensures Punctual(ks, input, msgs)
    decreases |input|
  {
    if input != [] {
      var p, rest := input[0], input[1..];
      assert Honest(p, msgs) && ks + input[..0] == ks;
      forall i | 0 <= i < |rest| && rest[i].header.kind == 20 && rest[i].header.seqNum > 0
        ensures Has(ks + [p] + rest[..i], msgs[0], 0)
      {
        assert rest[i] == input[i + 1];
        assert ks + [p] + rest[..i] == ks + input[..i + 1];
      }
      ShortFlightPunctual(ks + [p], rest, msgs);
    }
  }

  /** Every message was brought. */
  predicate AllBrought(ps: seq<Packet>, msgs: seq<Message>) {
    forall k :: 0 <= k < |msgs| ==> Has(ps, msgs[k], k)
  }

  /** The exact count for a new connection: of any honest, acceptable flight the run hands over the first `Reach` messages,
      and an entry stays behind exactly when some message bypassed its own queued part. */
  lemma RunReaches(u: Setup, input: seq<Packet>, msgs: seq<Message>)
    requires Flight(msgs) && AllAcceptable(msgs, u) && AllWhole(input) && HonestInput(input, msgs)
    ensures var n, r := Reach([], input, msgs), Run(Start(), u, input);
            n <= |msgs| && r.delivered == msgs[..n] && r.last == Blocked
            && (r.delivered == msgs <==> n == |msgs|) && (Stale(r.final) <==> Stalls([], input, msgs))
  {
    StartTracks(msgs);
    RunDelivers(Start(), u, [], input, msgs);
    StaleIffOrphans(Start(), u, input);
    var n := Reach([], input, msgs);
    assert msgs[0..n] == msgs[..n];
    assert msgs[..|msgs|] == msgs;
  }

  /** Two lists that bring the same. */
  ghost predicate SameBrought(a: seq<Packet>, b: seq<Packet>) {
    forall k: nat :: (Arrives(a, k) <==> Arrives(b, k)) && Coverage(a, k) == Coverage(b, k)
  }

  lemma {:induction false} SameLead(a: seq<Packet>, b: seq<Packet>, msgs: seq<Message>, n: nat)
    requires SameBrought(a, b) && n <= |msgs|
    ensures Lead(a, msgs, n) == Lead(b, msgs, n)
    decreases |msgs| - n
  {
    if n < |msgs| {
      assert Has(a, msgs[n], n) <==> Has(b, msgs[n], n) by {
        assert Arrives(a, n) <==> Arrives(b, n);
      }
      SameLead(a, b, msgs, n + 1);
    }
  }

  /** A whole message that was brought whole before brings nothing. */
  lemma SameWithAgain(a: seq<Packet>, b: seq<Packet>, p: Packet, msgs: seq<Message>)
    requires SameBrought(a, b) && Honest(p, msgs) && Arrives(b, p.header.seqNum)
    requires AllCovered(|msgs[p.header.seqNum].body|, Coverage(b, p.header.seqNum))
    ensures SameBrought(a, b + [p])
  {
    forall k: nat
      ensures (Arrives(a, k) <==> Arrives(b + [p], k)) && Coverage(a, k) == Coverage(b + [p], k)
    {
      assert Arrives(a, k) <==> Arrives(b, k);
      CoverageAppend(b, p, k);
      assert Part(p, k) <= Coverage(b, k);
    }
  }

  lemma SameWithBoth(a: seq<Packet>, b: seq<Packet>, p: Packet)
    requires SameBrought(a, b)
    ensures SameBrought(a + [p], b + [p])
  {
    forall k: nat
      ensures (Arrives(a + [p], k) <==> Arrives(b + [p], k)) && Coverage(a + [p], k) == Coverage(b + [p], k)
    {
      assert Arrives(a, k) <==> Arrives(b, k);
      CoverageAppend(a, p, k);
      CoverageAppend(b, p, k);
    }
  }

  /** One fragment in time and unmixed: if it is thrown away it brings nothing, and it bypasses no part. */
  lemma UnmixedStep(ks: seq<Packet>, all: seq<Packet>, p: Packet, msgs: seq<Message>, n: nat)
    requires SameBrought(ks, all) && HonestInput(all, msgs) && Honest(p, msgs) && Unmixed(all + [p])
    requires n == Lead(all, msgs, 0) && InTime(p, n)
    ensures !Bypasses(ks, p, n) && SameBrought(Taken(ks, p, n), all + [p])
  {
    var k := p.header.seqNum;
    assert Arrives(ks, k) <==> Arrives(all, k);
    if IsWhole(p) && Arrives(all, k) {
      BroughtWhole(all, p, msgs);
      if k == n {
        NotYet(all, msgs, n);
      }
    }
    if Thrown(ks, p, n) {
      SameWithAgain(ks, all, p, msgs);
    } else {
      SameWithBoth(ks, all, p);
    }
  }

  /** Fragments that were there and fragments to come, honest and unmixed. */
  ghost predicate Plain(all: seq<Packet>, input: seq<Packet>, msgs: seq<Message>) {
    HonestInput(all, msgs) && HonestInput(input, msgs) && Unmixed(all + input)
  }

  lemma PlainNext(all: seq<Packet>, input: seq<Packet>, msgs: seq<Message>)
    requires Plain(all, input, msgs) && input != []
    ensures Honest(input[0], msgs) && HonestInput(all, msgs) && Unmixed(all + [input[0]])
    ensures Plain(all + [input[0]], input[1..], msgs) && all + [input[0]] + input[1..] == all + input
  {
    assert all + [input[0]] + input[1..] == all + input;
    UnmixedPart(all + input, all + [input[0]]);
  }

  lemma {:induction false} UnmixedReach(ks: seq<Packet>, all: seq<Packet>, input: seq<Packet>, msgs: seq<Message>)
    requires SameBrought(ks, all) && Plain(all, input, msgs) && Punctual(all, input, msgs)
    ensures Reach(ks, input, msgs) == Lead(all + input, msgs, 0) && !Stalls(ks, input, msgs)
    decreases |input|
  {
    SameLead(ks, all, msgs, 0);
    if input == [] {
      assert all + input == all;
    } else {
      var p, rest, n := input[0], input[1..], Lead(ks, msgs, 0);
      PlainNext(all, input, msgs);
      UnmixedStep(ks, all, p, msgs, n);
      UnmixedReach(Taken(ks, p, n), all + [p], rest, msgs);
    }
  }

  /** The message at the lead is not there. */
  lemma NotYet(ps: seq<Packet>, msgs: seq<Message>, n: nat)
    requires n == Lead(ps, msgs, 0) < |msgs|
    ensures !Has(ps, msgs[n], n)
  {
    LeadBrought(ps, msgs, 0);
    LeadStops(ps, msgs, 0);
  }

  lemma {:induction false} LeadStops(ps: seq<Packet>, msgs: seq<Message>, n: nat)
    requires n <= |msgs| && Lead(ps, msgs, n) < |msgs|
    ensures var r := Lead(ps, msgs, n); !Has(ps, msgs[r], r)
    decreases |msgs| - n
  {
    if Has(ps, msgs[n], n) {
      LeadStops(ps, msgs, n + 1);
    }
  }

  /** From a new connection, if no message comes both whole and in part and all fragments are in time: every message brought
      without a gap is handed over, all of them exactly when every byte arrives, and no entry stays behind. */
  lemma RunCompletes(u: Setup, input: seq<Packet>, msgs: seq<Message>)
    requires Flight(msgs) && AllAcceptable(msgs, u) && AllWhole(input) && HonestInput(input, msgs)
    requires Unmixed(input) && Punctual([], input, msgs)
    ensures var n := Lead(input, msgs, 0);
            Run(Start(), u, input).delivered == msgs[..n] && !Stale(Run(Start(), u, input).final)
            && Reach([], input, msgs) == n && (n == |msgs| <==> AllBrought(input, msgs))
  {
    RunReaches(u, input, msgs);
    assert [] + input == input;
    UnmixedReach([], [], input, msgs);
    if AllBrought(input, msgs) {
      LeadSkips(input, msgs, 0, |msgs|);
    }
    LeadBrought(input, msgs, 0);
  }

  lemma {:induction false} LeadBrought(ps: seq<Packet>, msgs: seq<Message>, n: nat)
    requires n <= |msgs|
    ensures forall k :: n <= k < Lead(ps, msgs, n) ==> Has(ps, msgs[k], k)
    decreases |msgs| - n
  {
    if n < |msgs| && Has(ps, msgs[n], n) {
      LeadBrought(ps, msgs, n + 1);
    }
  }

  // ---------- what is handed over arrived, and a last resort ----------

  /** Nothing is handed over that did not arrive. */
  lemma {:induction false} ReachBrought(ks: seq<Packet>, input: seq<Packet>, msgs: seq<Message>, k: nat)
    requires HonestInput(ks, msgs) && HonestInput(input, msgs) && k < Reach(ks, input, msgs) && k < |msgs|
    ensures Has(ks + input, msgs[k], k)
    decreases |input|
  {
    var n := Lead(ks, msgs, 0);
    LeadBrought(ks, msgs, 0);
    if k < n {
      HasInMore(ks, ks + input, msgs[k], k);
    } else if input != [] {
      var p, rest := input[0], input[1..];
      assert Honest(p, msgs);
      if Bypasses(ks, p, n) {
        InTurnBrought(input, msgs, n, k);
        HasInMore(input, ks + input, msgs[k], k);
      } else {
        var ks' := Taken(ks, p, n);
        ReachBrought(ks', rest, msgs, k);
        HasInMore(ks' + rest, ks + input, msgs[k], k);
      }
    }
  }

  lemma {:induction false} InTurnBrought(input: seq<Packet>, msgs: seq<Message>, n: nat, k: nat)
    requires HonestInput(input, msgs) && n <= k < InTurn(input, n) && k < |msgs|
    ensures Has(input, msgs[k], k)
    decreases |input|
  {
    var p, rest := input[0], input[1..];
    assert p in input;
    if IsWhole(p) && p.header.seqNum == n == k {
      WholeCovers(input, msgs, p);
    } else {
      InTurnBrought(rest, msgs, if IsWhole(p) && p.header.seqNum == n then n + 1 else n, k);
      HasInMore(rest, input, msgs[k], k);
    }
  }

  /** The messages from `i` on, each in one fragment. */
  function Wholes(msgs: seq<Message>, i: nat): (ps: seq<Packet>)
    requires i <= |msgs|
    decreases |msgs| - i
  {
    if i == |msgs| then [] else [Fragment(msgs[i], 0, |msgs[i].body|)] + Wholes(msgs, i + 1)
  }

  lemma {:induction false} WholesHonest(msgs: seq<Message>, i: nat)
    requires Flight(msgs) && i <= |msgs|
    ensures HonestInput(Wholes(msgs, i), msgs) && AllWhole(Wholes(msgs, i))
    decreases |msgs| - i
  {
    if i < |msgs| {
      WholesHonest(msgs, i + 1);
    }
  }

  lemma {:induction false} WholesInTurn(msgs: seq<Message>, i: nat, n: nat)
    requires Flight(msgs) && i <= n <= |msgs|
    ensures InTurn(Wholes(msgs, i), n) == |msgs|
    decreases |msgs| - i
  {
    if i < |msgs| {
      assert Wholes(msgs, i)[1..] == Wholes(msgs, i + 1);
      WholesInTurn(msgs, i + 1, if i == n then n + 1 else n);
    }
  }

  lemma {:induction false} LeadGrows(ps: seq<Packet>, p: Packet, msgs: seq<Message>, n: nat)
    requires n <= |msgs|
    ensures Lead(ps, msgs, n) <= Lead(ps + [p], msgs, n)
    decreases |msgs| - n
  {
    if n < |msgs| && Has(ps, msgs[n], n) {
      HasGrows(ps, p, msgs[n], n);
      LeadGrows(ps, p, msgs, n + 1);
    }
  }

  /** A whole message at the lead moves the lead on. */
  lemma LeadPassed(ps: seq<Packet>, p: Packet, msgs: seq<Message>)
    requires HonestInput(ps, msgs) && Honest(p, msgs) && IsWhole(p) && p.header.seqNum == Lead(ps, msgs, 0)
    ensures p.header.seqNum < Lead(ps + [p], msgs, 0)
  {
    var n, all := p.header.seqNum, ps + [p];
    LeadBrought(ps, msgs, 0);
    forall k | 0 <= k <= n
      ensures Has(all, msgs[k], k)
    {
      if k < n {
        HasGrows(ps, p, msgs[k], k);
      } else {
        CoverageAppend(ps, p, k);
        assert p in all;
        WholeCovers(all, msgs, p);
      }
    }
    LeadSkips(all, msgs, 0, n + 1);
  }

  lemma {:induction false} WholesReach(ks: seq<Packet>, msgs: seq<Message>, i: nat)
    requires Flight(msgs) && HonestInput(ks, msgs) && i <= Lead(ks, msgs, 0)
    ensures Reach(ks, Wholes(msgs, i), msgs) == |msgs|
    decreases |msgs| - i
  {
    if i < |msgs| {
      var input, n := Wholes(msgs, i), Lead(ks, msgs, 0);
      var p := input[0];
      assert input[1..] == Wholes(msgs, i + 1) && Honest(p, msgs);
      if Bypasses(ks, p, n) {
        WholesInTurn(msgs, i, n);
      } else {
        if i == n {
          LeadPassed(ks, p, msgs);
        } else {
          LeadGrows(ks, p, msgs, 0);
        }
        WholesReach(ks + [p], msgs, i + 1);
      }
    }
  }

  lemma {:induction false} InTurnThenWholes(input: seq<Packet>, msgs: seq<Message>, n: nat)
    requires Flight(msgs) && HonestInput(input, msgs) && n <= |msgs|
    ensures InTurn(input + Wholes(msgs, 0), n) == |msgs|
    decreases |input|
  {
    var all := input + Wholes(msgs, 0);
    if input == [] {
      assert all == Wholes(msgs, 0);
      WholesInTurn(msgs, 0, n);
    } else {
      var p := input[0];
      assert Honest(p, msgs) && all[0] == p && all[1..] == input[1..] + Wholes(msgs, 0);
      InTurnThenWholes(input[1..], msgs, if IsWhole(p) && p.header.seqNum == n then n + 1 else n);
    }
  }

  lemma {:induction false} ThenWholes(ks: seq<Packet>, input: seq<Packet>, msgs: seq<Message>)
    requires Flight(msgs) && HonestInput(ks, msgs) && HonestInput(input, msgs)
    ensures Reach(ks, input + Wholes(msgs, 0), msgs) == |msgs|
    decreases |input|
  {
    var all, n := input + Wholes(msgs, 0), Lead(ks, msgs, 0);
    if input == [] {
      assert all == Wholes(msgs, 0);
      WholesReach(ks, msgs, 0);
    } else {
      var p := input[0];
      assert Honest(p, msgs) && all[0] == p && all[1..] == input[1..] + Wholes(msgs, 0);
      if Bypasses(ks, p, n) {
        InTurnThenWholes(input, msgs, n);
      } else {
        ThenWholes(Taken(ks, p, n), input[1..], msgs);
      }
    }
  }

  /** Whatever honest fragments arrived before, a pass over the flight in which every message comes in one fragment, in
      order, completes it. */
  lemma WholePassCompletes(u: Setup, input: seq<Packet>, msgs: seq<Message>)
    requires Flight(msgs) && AllAcceptable(msgs, u) && AllWhole(input) && HonestInput(input, msgs)
    ensures AllWhole(input + Wholes(msgs, 0)) && Run(Start(), u, input + Wholes(msgs, 0)).delivered == msgs
  {
    WholesHonest(msgs, 0);
    ThenWholes([], input, msgs);
    RunReaches(u, input + Wholes(msgs, 0), msgs);
  }
}
