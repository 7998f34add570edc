/** The client's handshake loop of ssl/ssl_clnt.c with the ChangeCipherSpec gate of
    ssl/ssl_pkt.c and the Finished check of ssl/ssl_both.c. Message handlers are
    abstract: what they decide comes from an oracle. Section 7.3 of RFC 5246. */
module ClientHandshake {
  import opened Asn1

  const HELLO_REQUEST: nat := 0
  const CLIENT_HELLO: nat := 1
  const SERVER_HELLO: nat := 2
  const NEW_SESSION_TICKET: nat := 4
  const CERTIFICATE: nat := 11
  const SERVER_KEY_EXCHANGE: nat := 12
  const CERTIFICATE_REQUEST: nat := 13
  const SERVER_DONE: nat := 14
  const CERTIFICATE_VERIFY: nat := 15
  const CLIENT_KEY_EXCHANGE: nat := 16
  const FINISHED: nat := 20
  const CERTIFICATE_STATUS: nat := 22

  /** hs.state; the two halves of a read are one state, and DTLS states are left out. */
  datatype HsState =
    | Before | WriteHello | ReadServerHello | ReadCert | ReadCertStatus | ReadKeyExchange | ReadCertRequest
    | ReadServerDone | WriteCert | WriteKeyExchange | WriteCertVerify | WriteChange | WriteChangeB
    | WriteFinished | WriteFinishedB | Flush | ReadTicket | ReadFinished | Established

  /** What comes off the wire, a record or a message at a time. A `Part` belongs to an unfinished message. */
  datatype Arrival = Part | Whole(kind: nat, body: seq<byte>) | Ccs(wellFormed: bool) | CloseNotify | Other(ignored: bool)

  /** What a handler decides, and whether a write goes through. */
  datatype Choice = Choice(ok: bool, ready: bool, reuse: bool, hit: bool, ticketExpected: bool, statusExpected: bool,
                           anonymous: bool, haveTicket: bool, haveCert: bool, skipVerify: bool, body: seq<byte>)

  datatype Ret = Go | Blocked | Fatal

  /** States in which a message may have been read ahead. */
  predicate MayKeep(state: HsState) {
    state.ReadCert? || state.ReadCertStatus? || state.ReadKeyExchange? || state.ReadCertRequest? || state.ReadServerDone?
    || state.ReadTicket? || state.ReadFinished?
  }

  /** States before either side changes keys, in a handshake that is not resumed. */
  predicate Opening(state: HsState) {
    state.Before? || state.WriteHello? || state.ReadServerHello? || state.ReadCert? || state.ReadCertStatus? || state.ReadKeyExchange?
    || state.ReadCertRequest? || state.ReadServerDone? || state.WriteCert? || state.WriteKeyExchange? || state.WriteCertVerify?
  }

  /** States in which a message of ours other than the Finished is written, and its type. */
  predicate Sends(state: HsState) {
    state.WriteHello? || state.WriteCert? || state.WriteKeyExchange? || state.WriteCertVerify?
  }

  function Kind(state: HsState): nat
    requires Sends(state)
  {
    if state.WriteHello? then CLIENT_HELLO else if state.WriteCert? then CERTIFICATE
    else if state.WriteKeyExchange? then CLIENT_KEY_EXCHANGE else CERTIFICATE_VERIFY
  }

  /** How far along a state is; a resumed handshake hears from the peer first. */
  function Rank(state: HsState, hit: bool): (n: nat)
    ensures n <= 16
  {
    match state
    case Before => 0
    case WriteHello => 1
    case ReadServerHello => 2
    case ReadCert => 3
    case ReadCertStatus => 4
    case ReadKeyExchange => 5
    case ReadCertRequest => 6
    case ReadServerDone => 7
    case WriteCert => 8
    case WriteKeyExchange => 9
    case WriteCertVerify => 10
    case WriteChange | WriteChangeB => 11
    case WriteFinished | WriteFinishedB => 12
    case Flush => 13
    case ReadTicket => if hit then 4 else 14
    case ReadFinished => if hit then 5 else 15
    case Established => 16
  }

  /** The messages a reading state waits for, and how long they may be. */
  predicate Awaited(state: HsState, kind: nat) {
    match state
    case ReadServerHello => kind == 2
    case ReadCert => kind == 11 || kind == 12
    case ReadCertStatus => kind == 22
    case ReadKeyExchange => kind == 12 || kind == 13 || kind == 14
    case ReadCertRequest => kind == 13 || kind == 14
    case ReadServerDone => kind == 14
    case ReadTicket => kind == 4 || kind == 20
    case _ => false
  }

  function Limit(state: HsState, maxCertList: nat): nat {
    match state
    case ReadServerHello => 20000
    case ReadCertStatus => 16384
    case ReadServerDone => 30
    case ReadTicket => 16384
    case _ => maxCertList
  }

  /** States that wait for nothing from the peer. */
  predicate Writes(state: HsState) {
    state.Before? || Sends(state) || state.WriteChange? || state.WriteChangeB? || state.WriteFinished? || state.WriteFinishedB? || state.Flush?
  }

  /** From which state the switch goes to which, with the flags as they are afterwards. */
  predicate Moves(from: HsState, to: HsState, hit: bool, ticketExpected: bool, certReq: nat) {
    var heard := if ticketExpected then ReadTicket else ReadFinished;
    match from
    case Before => to == WriteHello
    case WriteHello => to == ReadServerHello
    case ReadServerHello => to == if hit then heard else ReadCert
    case ReadCert => if hit then to == heard else to == ReadCertStatus || to == ReadKeyExchange
    case ReadCertStatus => to == ReadKeyExchange
    case ReadKeyExchange => to == ReadCertRequest
    case ReadCertRequest => to == ReadServerDone
    case ReadServerDone => to == if certReq != 0 then WriteCert else WriteKeyExchange
    case WriteCert => to == WriteKeyExchange
    case WriteKeyExchange => to == WriteChange || (to == WriteCertVerify && certReq == 1)
    case WriteCertVerify => to == WriteChange
    case WriteChange | WriteChangeB => to == WriteFinished
    case WriteFinished | WriteFinishedB => to == Flush
    case Flush => to == if hit then Established else heard
    case ReadTicket => to == ReadFinished
    case ReadFinished => to == if hit then WriteChange else Established
    case Established => false
  }

  lemma MovesForward(from: HsState, was: bool, to: HsState, hit: bool, ticketExpected: bool, certReq: nat)
    requires Moves(from, to, hit, ticketExpected, certReq) && (hit == was || from == ReadServerHello || from == ReadCert)
    ensures Rank(to, hit) > Rank(from, was)
  {
  }

  type Transcript = seq<(nat, seq<byte>)>

  /** What a run is judged by. A Finished is noted with the messages before it. */
  datatype Event = WroteCcs | WroteFinished | GotCcs | GotFinished(body: seq<byte>, context: Transcript)

  /** What reading comes to: the message, and whether a ChangeCipherSpec was accepted on the way. */
  datatype Reading = Reading(ret: Ret, kind: nat, body: seq<byte>, accepted: bool)

  /** The gate as a whole: `ccsOk` permits one ChangeCipherSpec, and after it (`ccs`) only handshake data may follow.
      Of a connection closed by the peer nothing is read, and at most three records at a time are (`count` were). */
  function Gated(input: seq<Arrival>, turn: nat, ccsOk: bool, ccs: bool, chosen: bool, closed: bool, count: nat, oracle: nat -> Choice): Reading
    decreases |input|
  {
    if input == [] || count >= 3 then Reading(Blocked, 0, [], false)
    else if ccs && !input[0].Part? && !input[0].Whole? then Reading(Fatal, 0, [], false)
    else if closed then Reading(Blocked, 0, [], false)
    else match input[0]
      case Part => Gated(input[1..], turn, ccsOk, ccs, chosen, false, 0, oracle)
      case Whole(kind, body) => Reading(Go, kind, body, false)
      case Ccs(wellFormed) =>
        if !wellFormed || !chosen || !ccsOk || !oracle(turn).ok then Reading(Fatal, 0, [], false)
        else Gated(input[1..], turn + 1, false, true, chosen, false, count + 1, oracle).(accepted := true)
      case CloseNotify => Reading(Blocked, 0, [], false)
      case Other(ignored) =>
        if !ignored then Reading(Fatal, 0, [], false) else Gated(input[1..], turn, ccsOk, ccs, chosen, false, count + 1, oracle)
  }

  /** A ChangeCipherSpec is accepted only with permission and when none is pending, and at most once. */
  lemma {:induction false} GateHolds(input: seq<Arrival>, turn: nat, ccsOk: bool, ccs: bool, chosen: bool, closed: bool, count: nat,
                                     oracle: nat -> Choice)
    ensures Gated(input, turn, ccsOk, ccs, chosen, closed, count, oracle).accepted ==> ccsOk && !ccs && chosen && !closed
    decreases |input|
  {
    if input != [] && !input[0].Whole? {
      GateHolds(input[1..], turn, ccsOk, ccs, chosen, false, if input[0].Part? then 0 else count + 1, oracle);
    }
  }

  /** From event `i` on: one ChangeCipherSpec and then a Finished that is the MAC of every message before it. */
  predicate Heard(mac: Transcript -> seq<byte>, events: seq<Event>, i: nat, transcript: Transcript) {
    i + 1 < |events| && events[i] == GotCcs && events[i + 1].GotFinished?
    && events[i + 1].body == mac(events[i + 1].context)
    && events[i + 1].context + [(FINISHED, events[i + 1].body)] <= transcript
  }

  /** A full handshake: ours first. */
  predicate Full(mac: Transcript -> seq<byte>, events: seq<Event>, transcript: Transcript) {
    |events| == 4 && events[0] == WroteCcs && events[1] == WroteFinished && Heard(mac, events, 2, transcript)
  }

  /** A resumed handshake: theirs first. */
  predicate Resumed(mac: Transcript -> seq<byte>, events: seq<Event>, transcript: Transcript) {
    |events| == 4 && Heard(mac, events, 0, transcript) && events[2] == WroteCcs && events[3] == WroteFinished
  }

  // ---------- which messages a handshake consists of ----------

  /** The optional messages: the server's certificate, its status, key exchange and request, our verify, the ticket. */
  datatype Choices = Choices(cert: bool, status: bool, keyExchange: bool, request: bool, verify: bool, ticket: bool)

  function Optional(present: bool, kind: nat): seq<nat> {
    if present then [kind] else []
  }

  /** Message types of a full handshake. Our certificate is sent exactly on request. */
  function FullTypes(o: Choices): seq<nat> {
    [1, 2] + Optional(o.cert, 11) + Optional(o.status, 22) + Optional(o.keyExchange, 12) + Optional(o.request, 13) + [14]
    + Optional(o.request, 11) + [16] + Optional(o.verify, 15) + [20]
    + Optional(o.ticket, 4) + [20]
  }

  /** Message types of a resumed handshake. */
  function ResumedTypes(o: Choices): seq<nat> {
    [1, 2] + Optional(o.ticket, 4) + [20, 20]
  }

  /** A status belongs to a certificate, and a verify message to a request. */
  predicate Proper(o: Choices) {
    (o.status ==> o.cert) && (o.verify ==> o.request)
  }

  /** The order of messages in a completed handshake. */
  ghost predicate InOrder(types: seq<nat>, resumed: bool) {
    exists o :: Proper(o) && types == if resumed then ResumedTypes(o) else FullTypes(o)
  }

  function Types(transcript: Transcript): seq<nat> {
    seq(|transcript|, i requires 0 <= i < |transcript| => transcript[i].0)
  }

  lemma TypesNext(transcript: Transcript, kind: nat, body: seq<byte>)
    ensures Types(transcript + [(kind, body)]) == Types(transcript) + [kind]
  {
  }

  /** The n-th place in the order of messages, which may stay empty. */
  function Place(resumed: bool, n: nat, o: Choices): seq<nat> {
    if n == 1 then [1] else if n == 2 then [2]
    else if resumed then
      if n == 3 then Optional(o.ticket, 4) else [20]
    else
      if n == 3 then Optional(o.cert, 11) else if n == 4 then Optional(o.status, 22)
      else if n == 5 then Optional(o.keyExchange, 12) else if n == 6 then Optional(o.request, 13)
      else if n == 7 then [14] else if n == 8 then Optional(o.request, 11)
      else if n == 9 then [16] else if n == 10 then Optional(o.verify, 15)
      else if n == 12 then Optional(o.ticket, 4) else [20]
  }

  /** The messages of the first `n` places. */
  function Upto(resumed: bool, n: nat, o: Choices): seq<nat> {
    if n == 0 then [] else Upto(resumed, n - 1, o) + Place(resumed, n, o)
  }

  /** The choices that concern the first `n` places are the same. */
  predicate SameTo(resumed: bool, n: nat, o: Choices, o': Choices) {
    if resumed then n >= 3 ==> o.ticket == o'.ticket
    else
      && (n >= 3 ==> o.cert == o'.cert) && (n >= 4 ==> o.status == o'.status) && (n >= 5 ==> o.keyExchange == o'.keyExchange)
      && (n >= 6 ==> o.request == o'.request) && (n >= 10 ==> o.verify == o'.verify) && (n >= 12 ==> o.ticket == o'.ticket)
  }

  lemma {:induction false} UptoSame(resumed: bool, n: nat, o: Choices, o': Choices)
    requires SameTo(resumed, n, o, o')
    ensures Upto(resumed, n, o) == Upto(resumed, n, o')
  {
    if n > 0 {
      UptoSame(resumed, n - 1, o, o');
    }
  }

  /** One more place is filled in; the places before it stay. */
  lemma Fills(resumed: bool, n: nat, o: Choices, o': Choices)
    requires SameTo(resumed, n, o, o')
    ensures Upto(resumed, n + 1, o') == Upto(resumed, n, o) + Place(resumed, n + 1, o')
  {
    UptoSame(resumed, n, o, o');
  }

  lemma Greeting(resumed: bool, o: Choices)
    ensures Upto(resumed, 1, o) == [1] && Upto(resumed, 2, o) == [1, 2]
  {
    assert Upto(resumed, 0, o) == [];
    assert Upto(resumed, 1, o) == [] + [1];
  }

  /** What was said so far: the first `stage` places. */
  datatype Talk = Talk(resumed: bool, stage: nat, choices: Choices, said: seq<nat>)

  predicate InForm(t: Talk) {
    Proper(t.choices) && t.said == Upto(t.resumed, t.stage, t.choices)
  }

  const NO_CHOICES := Choices(false, false, false, false, false, false)

  /** The next place, with what is decided there. */
  lemma Next(t: Talk, o: Choices) returns (t': Talk)
    requires InForm(t) && SameTo(t.resumed, t.stage, t.choices, o) && Proper(o)
    ensures t' == Talk(t.resumed, t.stage + 1, o, t.said + Place(t.resumed, t.stage + 1, o)) && InForm(t')
  {
    Fills(t.resumed, t.stage, t.choices, o);
    t' := Talk(t.resumed, t.stage + 1, o, t.said + Place(t.resumed, t.stage + 1, o));
  }

  /** The next place stays empty. */
  lemma Skip(t: Talk, o: Choices) returns (t': Talk)
    requires InForm(t) && SameTo(t.resumed, t.stage, t.choices, o) && Proper(o) && Place(t.resumed, t.stage + 1, o) == []
    ensures t' == Talk(t.resumed, t.stage + 1, o, t.said) && InForm(t')
  {
    t' := Next(t, o);
    assert t.said + [] == t.said;
  }

  /** After the hellos the handshake turns out to be resumed; the place of the ticket may be passed over. */
  lemma Resume(t: Talk, past: bool) returns (t': Talk)
    requires InForm(t) && !t.resumed && t.stage == 2
    ensures t'.resumed && t'.stage == (if past then 3 else 2) && t'.said == t.said && InForm(t')
  {
    Greeting(false, t.choices);
    Greeting(true, NO_CHOICES);
    t' := Talk(true, 2, NO_CHOICES, t.said);
    if past {
      t' := Skip(t', NO_CHOICES);
    }
  }

  /** Neither a certificate nor its status. */
  lemma Unaccompanied(t: Talk) returns (t': Talk)
    requires InForm(t) && !t.resumed && t.stage == 2
    ensures !t'.resumed && t'.stage == 4 && t'.said == t.said && InForm(t')
  {
    t' := Skip(t, NO_CHOICES);
    t' := Skip(t', NO_CHOICES);
  }

  /** The key exchange message, with the verify message still to come or none. */
  lemma KeysSent(t: Talk, verify: bool) returns (t': Talk)
    requires InForm(t) && !t.resumed && t.stage == 8
    ensures !t'.resumed && t'.stage == (if verify then 9 else 10) && t'.said == t.said + [16] && InForm(t')
    ensures t'.choices.request == t.choices.request
  {
    var o := t.choices.(verify := false);
    t' := Next(t, o);
    if !verify {
      t' := Skip(t', o);
    }
  }

  lemma FirstPlaces(o: Choices)
    ensures Upto(false, 4, o) == [1, 2] + Optional(o.cert, 11) + Optional(o.status, 22)
  {
    Greeting(false, o);
  }

  lemma MiddlePlaces(o: Choices)
    ensures Upto(false, 7, o) == Upto(false, 4, o) + Optional(o.keyExchange, 12) + Optional(o.request, 13) + [14]
  {
    assert Upto(false, 5, o) == Upto(false, 4, o) + Optional(o.keyExchange, 12);
  }

  lemma OurPlaces(o: Choices)
    ensures Upto(false, 10, o) == Upto(false, 7, o) + Optional(o.request, 11) + [16] + Optional(o.verify, 15)
  {
    assert Upto(false, 8, o) == Upto(false, 7, o) + Optional(o.request, 11);
  }

  lemma LastPlaces(o: Choices)
    ensures Upto(false, 13, o) == Upto(false, 10, o) + [20] + Optional(o.ticket, 4) + [20]
  {
    assert Upto(false, 11, o) == Upto(false, 10, o) + [20];
  }

  lemma ResumedPlaces(o: Choices)
    ensures Upto(true, 5, o) == ResumedTypes(o)
  {
    Greeting(true, o);
    assert Upto(true, 3, o) == [1, 2] + Optional(o.ticket, 4);
    assert Upto(true, 5, o) == Upto(true, 3, o) + [20] + [20];
  }

  /** All places together. */
  lemma AllPlaces(o: Choices)
    ensures Upto(false, 13, o) == FullTypes(o) && Upto(true, 5, o) == ResumedTypes(o)
  {
    FirstPlaces(o);
    MiddlePlaces(o);
    OurPlaces(o);
    LastPlaces(o);
    ResumedPlaces(o);
  }

  /** How many places lie behind a state. */
  function Stage(state: HsState, hit: bool): nat {
    match state
    case Before | WriteHello => 0
    case ReadServerHello => 1
    case ReadCert => 2
    case ReadCertStatus => 3
    case ReadKeyExchange => 4
    case ReadCertRequest => 5
    case ReadServerDone => 6
    case WriteCert => 7
    case WriteKeyExchange => 8
    case WriteCertVerify => 9
    case WriteChange | WriteChangeB | WriteFinished | WriteFinishedB => if hit then 4 else 10
    case Flush => if hit then 5 else 11
    case ReadTicket => if hit then 2 else 11
    case ReadFinished => if hit then 3 else 12
    case Established => if hit then 5 else 13
  }

  /** What the request flag says about the choices. */
  predicate Noted(state: HsState, o: Choices, certReq: nat) {
    && (state.ReadServerDone? || state.WriteCert? || state.WriteKeyExchange? ==> (certReq != 0 <==> o.request))
    && (state.WriteCert? || state.WriteCertVerify? ==> o.request)
  }

  class Client {
    /** tls1_final_finish_mac for the server's label. */
    const mac: Transcript -> seq<byte>
    const oracle: nat -> Choice
    /** s->internal->max_cert_list */
    const maxCertList: nat
    var turn: nat
    var incoming: seq<Arrival>
    var state: HsState
    var nextState: HsState
    var hit: bool
    var ticketExpected: bool
    var certReq: nat
    var cipherChosen: bool
    /** SSL3_FLAGS_CCS_OK and S3I(s)->change_cipher_spec */
    var ccsOk: bool
    var changeCipherSpec: bool
    /** SSL_RECEIVED_SHUTDOWN after a close_notify. */
    var closed: bool
    var reuseMessage: bool
    var messageType: nat
    var messageBody: seq<byte>
    var transcript: Transcript
    var peerFinished: seq<byte>
    var peerContext: Transcript
    var log: seq<Event>
    /** What was said in the states behind this one. */
    ghost var talk: Talk

    /** A new connection. */
    constructor (mac: Transcript -> seq<byte>, oracle: nat -> Choice, maxCertList: nat)
      ensures Inv() && Said() && state == Before && log == [] && this.mac == mac
    {
      this.mac, this.oracle, this.maxCertList, turn, incoming, closed := mac, oracle, maxCertList, 0, [], false;
      state, nextState, hit, ticketExpected, certReq, cipherChosen := Before, Before, false, false, 0, false;
      ccsOk, changeCipherSpec, reuseMessage, messageType, messageBody := false, false, false, 0, [];
      transcript, peerFinished := [], [];
      peerContext, log := [], [];
      talk := Talk(false, 0, NO_CHOICES, []);
    }

    /** Which events lie behind each state. */
    ghost predicate Inv()
      reads this`state, this`nextState, this`hit, this`ticketExpected, this`log, this`ccsOk, this`changeCipherSpec, this`cipherChosen, this`transcript
      reads this`reuseMessage, this`messageType, this`messageBody, this`peerFinished, this`peerContext
    {
      && (if MayKeep(state) then KeptTaken() else !reuseMessage)
      && (Opening(state) ==> !hit && Quiet([]))
      && (state.ReadTicket? || state.ReadFinished? ==> if hit then Peer([]) else Peer([WroteCcs, WroteFinished]))
      && (state.WriteChange? || state.WriteChangeB? ==>
            if hit then |log| == 2 && Heard(mac, log, 0, transcript) && !changeCipherSpec else Quiet([]))
      && (state.WriteFinished? || state.WriteFinishedB? ==>
            if hit then |log| == 3 && Heard(mac, log, 0, transcript) && log[2] == WroteCcs && !changeCipherSpec else Quiet([WroteCcs]))
      && (state.Flush? ==>
            if hit then nextState == Established && Resumed(mac, log, transcript)
            else log == [WroteCcs, WroteFinished] && !changeCipherSpec && nextState == if ticketExpected then ReadTicket else ReadFinished)
      && (state.Established? ==> if hit then Resumed(mac, log, transcript) else Full(mac, log, transcript))
    }

    /** The transcript holds the messages behind the state, in order, and one more if it was read ahead. */
    ghost predicate Said()
      reads this`state, this`hit, this`talk, this`certReq, this`transcript, this`reuseMessage, this`messageType
    {
      && Placed() && Types(transcript) == talk.said + Optional(reuseMessage, messageType)
      && (state.ReadCertStatus? && !talk.choices.cert ==> reuseMessage && messageType == SERVER_KEY_EXCHANGE)
    }

    ghost predicate Placed()
      reads this`state, this`hit, this`talk, this`certReq
    {
      At(Stage(state, hit), hit) && Noted(state, talk.choices, certReq)
    }

    /** So many places are filled in. */
    ghost predicate At(stage: nat, resumed: bool)
      reads this`talk
    {
      InForm(talk) && talk.resumed == resumed && talk.stage == stage
    }

    /** One message more than what was said is in the transcript. */
    ghost predicate OneMore(kind: nat)
      reads this`talk, this`transcript
    {
      Types(transcript) == talk.said + [kind]
    }

    /** A message was just read and nothing decided about it. */
    ghost predicate Read()
      reads this`state, this`hit, this`talk, this`certReq, this`transcript, this`reuseMessage, this`messageType
    {
      Placed() && OneMore(messageType) && !reuseMessage
    }

    /** The kept message, when it is a Finished, was taken together with the MAC of what came before it. */
    ghost predicate KeptTaken()
      reads this`reuseMessage, this`messageType, this`messageBody, this`transcript, this`peerFinished, this`peerContext, this`cipherChosen
    {
      reuseMessage && messageType == FINISHED ==> FinishedTaken()
    }

    ghost predicate FinishedTaken()
      reads this`messageBody, this`transcript, this`peerFinished, this`peerContext, this`cipherChosen
    {
      transcript == peerContext + [(FINISHED, messageBody)] && (cipherChosen ==> peerFinished == mac(peerContext))
    }

    /** Nothing heard from the peer, and nothing would be accepted. */
    ghost predicate Quiet(events: seq<Event>)
      reads this`log, this`ccsOk, this`changeCipherSpec
    {
      log == events && !ccsOk && !changeCipherSpec
    }

    /** At most the peer's ChangeCipherSpec was accepted since `events`, and then it still waits for its Finished. */
    ghost predicate Peer(events: seq<Event>)
      reads this`log, this`changeCipherSpec, this`cipherChosen
    {
      (log == events && !changeCipherSpec) || (log == events + [GotCcs] && changeCipherSpec && cipherChosen)
    }

    /** What reading may do to the ChangeCipherSpec flags. */
    twostate predicate Gate()
      reads this
    {
      (log == old(log) && changeCipherSpec == old(changeCipherSpec) && ccsOk == old(ccsOk))
      || (log == old(log) + [GotCcs] && old(ccsOk) && !old(changeCipherSpec) && cipherChosen && changeCipherSpec && !ccsOk)
    }

    /** Every handler approves and every write goes through. */
    ghost predicate Willing() {
      forall t :: oracle(t).ok && oracle(t).ready
    }

    /** The message at hand: kept, or whole and the next to be read. */
    ghost predicate Offered(max: nat)
      reads this`reuseMessage, this`incoming, this`closed
    {
      reuseMessage || (!closed && incoming != [] && incoming[0].Whole? && incoming[0].kind != 0 && |incoming[0].body| <= max)
    }

    ghost function OfferedKind(): nat
      reads this`reuseMessage, this`incoming, this`messageType
    {
      if reuseMessage || incoming == [] || !incoming[0].Whole? then messageType else incoming[0].kind
    }

    /** The message this state waits for is at hand. */
    ghost predicate AtHand()
      reads this`state, this`reuseMessage, this`incoming, this`closed, this`messageType
    {
      Offered(Limit(state, maxCertList)) && Awaited(state, OfferedKind())
    }

    method Consult() returns (c: Choice)
      modifies this`turn
      ensures c == oracle(old(turn)) && turn == old(turn) + 1
    {
      c := oracle(turn);
      turn := turn + 1;
    }

    /** What reading now would come to. */
    ghost function Coming(): Reading
      reads this`incoming, this`turn, this`ccsOk, this`changeCipherSpec, this`cipherChosen, this`closed
    {
      Gated(incoming, turn, ccsOk, changeCipherSpec, cipherChosen, closed, 0, oracle)
    }

    /** A ChangeCipherSpec record: only well-formed, with a cipher to change to and with permission, which is used up. */
    method AcceptChangeCipherSpec(wellFormed: bool) returns (ok: bool)
      modifies this`turn, this`ccsOk, this`changeCipherSpec, this`peerFinished, this`peerContext, this`log
      ensures ok == (wellFormed && cipherChosen && old(ccsOk) && oracle(old(turn)).ok)
      ensures ok ==> log == old(log) + [GotCcs] && changeCipherSpec && !ccsOk && turn == old(turn) + 1
    {
      var c := Consult();
      if !wellFormed || !cipherChosen || !ccsOk {
        return false;
      }
      ccsOk := false;
      changeCipherSpec := true;
      peerFinished := mac(transcript);
      peerContext := transcript;
      log := log + [GotCcs];
      ok := c.ok;
    }

    /** What reading comes to from inside: after `count` records, and with or without a ChangeCipherSpec. */
    ghost function Ahead(accepted: bool, count: nat): Reading
      reads this`incoming, this`turn, this`ccsOk, this`changeCipherSpec, this`cipherChosen, this`closed
    {
      var q := Gated(incoming, turn, ccsOk, changeCipherSpec, cipherChosen, closed, count, oracle);
      if accepted then q.(accepted := true) else q
    }

    /** ssl3_read_bytes for handshake data, called until a message is whole: a ChangeCipherSpec is accepted once per
        permission, between it and the Finished nothing but handshake data is, after a close_notify nothing is read,
        and after three records in a row that are not handshake data the caller has to come again. */
    method ReadBytes() returns (r: Ret, kind: nat, body: seq<byte>)
      modifies this`incoming, this`turn, this`ccsOk, this`changeCipherSpec, this`closed, this`peerFinished, this`peerContext, this`log
      ensures r == old(Coming()).ret && (r == Go ==> kind == old(Coming()).kind && body == old(Coming()).body)
      ensures r != Fatal && old(Coming()).accepted ==> log == old(log) + [GotCcs] && changeCipherSpec && !ccsOk
      ensures r != Fatal && !old(Coming()).accepted ==>
                log == old(log) && changeCipherSpec == old(changeCipherSpec) && ccsOk == old(ccsOk)
      ensures r != Fatal ==> Gate()
      ensures |incoming| <= |old(incoming)| && (r == Go ==> |incoming| < |old(incoming)|)
    {
      kind, body := 0, [];
      ghost var q := Coming();
      GateHolds(incoming, turn, ccsOk, changeCipherSpec, cipherChosen, closed, 0, oracle);
      ghost var accepted := false;
      var rrcount := 0;
      while true
        invariant |incoming| <= |old(incoming)|
        invariant q == Ahead(accepted, rrcount)
        invariant accepted ==> old(ccsOk) && !old(changeCipherSpec) && cipherChosen
        invariant accepted ==> log == old(log) + [GotCcs] && changeCipherSpec && !ccsOk
        invariant !accepted ==> log == old(log) && changeCipherSpec == old(changeCipherSpec) && ccsOk == old(ccsOk)
        decreases |incoming|
      {
        GateHolds(incoming, turn, ccsOk, changeCipherSpec, cipherChosen, closed, rrcount, oracle);
        if rrcount >= 3 || incoming == [] {
          return Blocked, 0, [];
        }
        rrcount := rrcount + 1;
        var a := incoming[0];
        incoming := incoming[1..];
        if changeCipherSpec && !a.Part? && !a.Whole? {
          return Fatal, 0, [];
        }
        if closed {
          return Blocked, 0, [];
        }
        match a
        case Part => rrcount := 0;
        case Whole(k, b) => return Go, k, b;
        case Ccs(wellFormed) =>
          var ok := AcceptChangeCipherSpec(wellFormed);
          if !ok {
            return Fatal, 0, [];
          }
          accepted := true;
        case CloseNotify =>
          closed := true;
          return Blocked, 0, [];
        case Other(ignored) =>
          if !ignored {
            return Fatal, 0, [];
          }
      }
    }

    /** The next message but HelloRequests, which are ignored. */
    method NextMessage() returns (r: Ret, kind: nat, body: seq<byte>)
      modifies this`incoming, this`turn, this`ccsOk, this`changeCipherSpec, this`closed, this`peerFinished, this`peerContext, this`log
      ensures r != Fatal ==> Gate()
      ensures old(Coming()).ret == Go && old(Coming()).kind != 0 ==>
                r == Go && kind == old(Coming()).kind && body == old(Coming()).body
                && (changeCipherSpec <==> old(changeCipherSpec) || old(Coming()).accepted)
    {
      ghost var q, first := Coming(), true;
      while true
        invariant Gate()
        invariant first ==> Coming() == q && changeCipherSpec == old(changeCipherSpec)
        invariant !first ==> q.ret == Go && q.kind == 0
        decreases |incoming|
      {
        r, kind, body := ReadBytes();
        if r != Go || kind != HELLO_REQUEST || body != [] {
          return;
        }
        first := false;
      }
    }

    /** A whole message that is next is what reading comes to. */
    lemma WholeComes()
      requires !closed && incoming != [] && incoming[0].Whole?
      ensures Coming().ret == Go && Coming().kind == incoming[0].kind && Coming().body == incoming[0].body
    {
    }

    /** ssl3_get_message; `wanted` is the type that must come, if one must, and `max` the longest body. */
    method GetMessage(wanted: Option<nat>, max: nat) returns (r: Ret)
      requires KeptTaken()
      modifies this`incoming, this`turn, this`ccsOk, this`changeCipherSpec, this`closed, this`peerFinished, this`peerContext, this`log
      modifies this`reuseMessage, this`messageType, this`messageBody, this`transcript
      ensures r != Fatal ==> Gate() && KeptTaken() && !reuseMessage
      ensures r == Go && messageType == FINISHED ==> FinishedTaken()
      ensures r == Go && wanted.Some? ==> messageType == wanted.value
      ensures r == Go ==> Types(transcript) == old(Types(transcript)) + Optional(!old(reuseMessage), messageType)
      ensures r == Go && old(reuseMessage) ==> messageType == old(messageType)
      ensures r == Blocked ==> transcript == old(transcript) && !old(reuseMessage)
      ensures old(Offered(max)) ==> if wanted.None? || wanted.value == old(OfferedKind()) then r == Go && messageType == old(OfferedKind()) else r == Fatal
      ensures !old(reuseMessage) && old(Coming()).ret == Go && old(Coming()).kind != 0 ==>
                (r == Go <==> (wanted.None? || wanted.value == old(Coming()).kind) && |old(Coming()).body| <= max)
                && (r == Go ==> messageType == old(Coming()).kind && messageBody == old(Coming()).body && peerContext == old(transcript)
                                && (changeCipherSpec <==> old(changeCipherSpec) || old(Coming()).accepted))
    {
      if reuseMessage {
        reuseMessage := false;
        r := if wanted.Some? && messageType != wanted.value then Fatal else Go;
        assert Types(transcript) + [] == Types(transcript);
        return;
      }
      if Offered(max) {
        WholeComes();
      }
      var kind, body;
      r, kind, body := NextMessage();
      if r != Go {
        return;
      }
      if wanted.Some? && kind != wanted.value {
        return Fatal;
      }
      if |body| > max {
        return Fatal;
      }
      messageType, messageBody := kind, body;
      if kind == FINISHED && cipherChosen {
        peerFinished := mac(transcript);
      }
      peerContext := transcript;
      TypesNext(transcript, kind, body);
      transcript := transcript + [(kind, body)];
      r := Go;
    }

    /** ssl3_get_message in terms of the order of messages. */
    method Hear(wanted: Option<nat>, max: nat) returns (r: Ret)
      requires KeptTaken() && Said()
      modifies this`incoming, this`turn, this`ccsOk, this`changeCipherSpec, this`closed, this`peerFinished, this`peerContext, this`log
      modifies this`reuseMessage, this`messageType, this`messageBody, this`transcript
      ensures r != Fatal ==> Gate() && KeptTaken() && !reuseMessage
      ensures r == Go ==> Read() && (messageType == FINISHED ==> FinishedTaken()) && (wanted.Some? ==> messageType == wanted.value)
      ensures r == Blocked ==> Said() && transcript == old(transcript)
      ensures r == Go && state.ReadCertStatus? && wanted == Some(CERTIFICATE_STATUS) ==> talk.choices.cert
      ensures old(Offered(max)) && (wanted.None? || wanted.value == old(OfferedKind())) ==> r == Go && messageType == old(OfferedKind())
    {
      r := GetMessage(wanted, max);
    }

    /** A handshake message of ours is written; it may take several attempts. */
    method SendMessage(kind: nat) returns (r: Ret, c: Choice)
      modifies this`turn, this`transcript
      ensures transcript == if r == Go then old(transcript) + [(kind, c.body)] else old(transcript)
      ensures r == Go ==> Types(transcript) == old(Types(transcript)) + [kind]
      ensures c == oracle(old(turn)) && r == if !c.ok then Fatal else if !c.ready then Blocked else Go
    {
      c := Consult();
      if !c.ok {
        return Fatal, c;
      }
      if !c.ready {
        return Blocked, c;
      }
      TypesNext(transcript, kind, c.body);
      transcript := transcript + [(kind, c.body)];
      r := Go;
    }

    /** The next place is filled in, by the message of that kind unless it was kept. */
    ghost method Tell(stage: nat, o: Choices, kind: nat)
      requires At(stage, hit) && OneMore(kind) && Stage(state, hit) == stage + 1 && state != ReadCertStatus
      requires SameTo(hit, stage, talk.choices, o) && Proper(o) && Noted(state, o, certReq)
      requires Place(hit, stage + 1, o) == Optional(!reuseMessage, kind) && (reuseMessage ==> messageType == kind)
      modifies this`talk
      ensures Said()
    {
      talk := Next(talk, o);
    }

    /** ssl3_get_server_hello and what follows it: a resumed session may hear ChangeCipherSpec next. */
    method OnServerHello() returns (r: Ret)
      requires Inv() && Said() && state == ReadServerHello
      modifies this
      ensures r != Fatal ==> Inv() && Said()
      ensures r == Go ==> state == if !hit then ReadCert else if ticketExpected then ReadTicket else ReadFinished
      ensures Willing() && old(AtHand()) ==> r == Go
    {
      r := Hear(None, 20000);
      if r == Go {
        r := TakeServerHello();
      }
      if r == Go {
        TellServerHello();
      }
    }

    /** The second half of ssl3_get_server_hello. */
    method TakeServerHello() returns (r: Ret)
      requires Inv() && state == ReadServerHello
      modifies this`turn, this`cipherChosen, this`ticketExpected, this`hit, this`ccsOk, this`state
      ensures r == if messageType == SERVER_HELLO && oracle(old(turn)).ok then Go else Fatal
      ensures r == Go ==> Inv() && cipherChosen && hit == oracle(old(turn)).hit && ticketExpected == oracle(old(turn)).ticketExpected && ccsOk == hit
      ensures r == Go ==> state == if !hit then ReadCert else if ticketExpected then ReadTicket else ReadFinished
    {
      var c := Consult();
      if messageType != SERVER_HELLO || !c.ok {
        return Fatal;
      }
      cipherChosen := true;
      ticketExpected := c.ticketExpected;
      hit := c.hit;
      if hit {
        ccsOk := true;
        state := if ticketExpected then ReadTicket else ReadFinished;
      } else {
        state := ReadCert;
      }
      r := Go;
    }

    ghost method TellServerHello()
      requires At(1, false) && OneMore(2) && !reuseMessage
      requires state == if !hit then ReadCert else if ticketExpected then ReadTicket else ReadFinished
      modifies this`talk
      ensures Said()
    {
      talk := Next(talk, talk.choices);
      if hit {
        talk := Resume(talk, !ticketExpected);
      }
    }

    /** ssl3_check_finished: with a ticket of ours at stake, look whether the server resumed after all. */
    method CheckFinished(haveTicket: bool) returns (r: Ret, resumed: bool)
      requires Inv() && Said() && state == ReadCert
      modifies this`incoming, this`turn, this`ccsOk, this`changeCipherSpec, this`closed, this`peerFinished, this`peerContext, this`log
      modifies this`reuseMessage, this`messageType, this`messageBody, this`transcript
      ensures r != Fatal ==> Inv() && Said()
      ensures r == Go && resumed ==> messageType == FINISHED || messageType == NEW_SESSION_TICKET
      ensures old(AtHand()) ==> r == Go && !resumed && AtHand()
    {
      if !haveTicket {
        return Go, false;
      }
      r := Hear(None, maxCertList);
      resumed := false;
      if r != Go {
        return;
      }
      reuseMessage := true;
      resumed := messageType == FINISHED || messageType == NEW_SESSION_TICKET;
    }

    /** SSL3_ST_CR_CERT: a late resumption, a certificate, or an anonymous cipher without one. */
    method OnCert() returns (r: Ret)
      requires Inv() && Said() && state == ReadCert
      modifies this
      ensures r != Fatal ==> Inv() && Said()
      ensures r == Go ==> Quiet([])
      ensures r == Go && !hit ==> state == ReadCertStatus || state == ReadKeyExchange
      ensures r == Go && hit ==> state == if ticketExpected then ReadTicket else ReadFinished
      ensures r == Go && hit ==> messageType == FINISHED || messageType == NEW_SESSION_TICKET
      ensures Willing() && old(AtHand()) ==> r == Go
    {
      var c := Consult();
      var resumed;
      r, resumed := CheckFinished(c.haveTicket);
      if r != Go {
        return;
      }
      if resumed {
        TakeResumption();
        return;
      }
      if c.anonymous {
        TakeNoCertificate();
        return;
      }
      r := ReadCertificate(c);
    }

    /** The server resumed after all. */
    method TakeResumption()
      requires Inv() && Said() && state == ReadCert
      modifies this`hit, this`state, this`talk
      ensures Inv() && Said() && hit && Quiet([]) && state == if ticketExpected then ReadTicket else ReadFinished
    {
      hit := true;
      talk := Resume(talk, !ticketExpected);
      state := if ticketExpected then ReadTicket else ReadFinished;
    }

    /** An anonymous cipher has no certificate. */
    method TakeNoCertificate()
      requires Inv() && Said() && state == ReadCert
      modifies this`state, this`talk
      ensures Inv() && Said() && state == ReadKeyExchange && !hit && Quiet([])
    {
      talk := Unaccompanied(talk);
      state := ReadKeyExchange;
    }

    /** ssl3_get_server_certificate */
    method ReadCertificate(c: Choice) returns (r: Ret)
      requires Inv() && Said() && state == ReadCert
      modifies this
      ensures r != Fatal ==> Inv() && Said()
      ensures r == Go ==> (state == ReadCertStatus || state == ReadKeyExchange) && !hit && Quiet([])
      ensures c.ok && old(AtHand()) ==> r == Go
    {
      r := Hear(None, maxCertList);
      if r == Go {
        r := TakeCertificate(c);
      }
      if r == Go {
        TellCertificate(c.statusExpected);
      }
    }

    /** The second half of ssl3_get_server_certificate. */
    method TakeCertificate(c: Choice) returns (r: Ret)
      requires Inv() && !reuseMessage && state == ReadCert
      modifies this`reuseMessage, this`state
      ensures r == if messageType == SERVER_KEY_EXCHANGE || (messageType == CERTIFICATE && c.ok) then Go else Fatal
      ensures r == Go ==> Inv() && !hit && Quiet([])
      ensures r == Go ==> messageType == if reuseMessage then SERVER_KEY_EXCHANGE else CERTIFICATE
      ensures r == Go ==> state == if c.statusExpected then ReadCertStatus else ReadKeyExchange
    {
      if messageType == SERVER_KEY_EXCHANGE {
        reuseMessage := true;
      } else if messageType != CERTIFICATE || !c.ok {
        return Fatal;
      }
      state := if c.statusExpected then ReadCertStatus else ReadKeyExchange;
      r := Go;
    }

    ghost method TellCertificate(statusExpected: bool)
      requires At(2, false) && OneMore(messageType) && !hit && messageType == if reuseMessage then SERVER_KEY_EXCHANGE else CERTIFICATE
      requires state == if statusExpected then ReadCertStatus else ReadKeyExchange
      modifies this`talk
      ensures Said()
    {
      var o := NO_CHOICES.(cert := messageType == CERTIFICATE);
      talk := Next(talk, o);
      if !statusExpected {
        talk := Skip(talk, o);
      }
    }

    /** The messages between the certificate and ServerHelloDone. */
    method OnServerMessage() returns (r: Ret)
      requires Inv() && Said() && (state == ReadCertStatus || state == ReadKeyExchange || state == ReadCertRequest || state == ReadServerDone)
      modifies this
      ensures r != Fatal ==> Inv() && Said()
      ensures r == Go ==> hit == old(hit) && Moves(old(state), state, hit, ticketExpected, certReq)
      ensures Willing() && old(AtHand()) ==> r == Go
    {
      if state == ReadCertStatus {
        r := OnCertStatus();
      } else if state == ReadKeyExchange {
        r := OnKeyExchange();
      } else if state == ReadCertRequest {
        r := OnCertRequest();
      } else {
        r := OnServerDone();
      }
    }

    /** ssl3_get_cert_status */
    method OnCertStatus() returns (r: Ret)
      requires Inv() && Said() && state == ReadCertStatus
      modifies this
      ensures r != Fatal ==> Inv() && Said()
      ensures r == Go ==> state == ReadKeyExchange
      ensures Willing() && old(AtHand()) ==> r == Go
    {
      r := Hear(Some(CERTIFICATE_STATUS), 16384);
      if r == Go {
        r := Accept(ReadKeyExchange, false);
      }
      if r == Go {
        TellStatus();
      }
    }

    ghost method TellStatus()
      requires At(3, false) && OneMore(22) && !hit && !reuseMessage && talk.choices.cert && state == ReadKeyExchange
      modifies this`talk
      ensures Said()
    {
      Tell(3, talk.choices.(status := true), 22);
    }

    /** A handler accepts a message in the opening states, or keeps it, and moves on. */
    method Accept(next: HsState, keep: bool) returns (r: Ret)
      requires Inv() && Opening(state) && Opening(next) && !reuseMessage && (messageType == FINISHED ==> FinishedTaken())
      requires keep ==> MayKeep(next)
      modifies this`turn, this`state, this`reuseMessage
      ensures r == if oracle(old(turn)).ok then Go else Fatal
      ensures r == Go ==> Inv() && state == next && reuseMessage == keep
    {
      var c := Consult();
      if !c.ok {
        return Fatal;
      }
      reuseMessage := keep;
      state := next;
      r := Go;
    }

    /** ssl3_get_server_key_exchange: the message may be missing, and what came instead is kept. */
    method OnKeyExchange() returns (r: Ret)
      requires Inv() && Said() && state == ReadKeyExchange
      modifies this
      ensures r != Fatal ==> Inv() && Said()
      ensures r == Go ==> state == ReadCertRequest
      ensures Willing() && old(AtHand()) ==> r == Go
    {
      r := Hear(None, maxCertList);
      if r == Go {
        r := Accept(ReadCertRequest, messageType != SERVER_KEY_EXCHANGE);
      }
      if r == Go {
        TellKeyExchange();
      }
    }

    ghost method TellKeyExchange()
      requires At(4, false) && OneMore(messageType) && !hit && (messageType == SERVER_KEY_EXCHANGE <==> !reuseMessage)
      requires state == ReadCertRequest
      modifies this`talk
      ensures Said()
    {
      Tell(4, talk.choices.(keyExchange := !reuseMessage), messageType);
    }

    /** ssl3_get_certificate_request: ServerHelloDone instead is kept, anything else is fatal. */
    method OnCertRequest() returns (r: Ret)
      requires Inv() && Said() && state == ReadCertRequest
      modifies this
      ensures r != Fatal ==> Inv() && Said()
      ensures r == Go ==> state == ReadServerDone
      ensures Willing() && old(AtHand()) ==> r == Go
    {
      r := Hear(None, maxCertList);
      if r == Go {
        r := TakeRequest();
      }
      if r == Go {
        TellRequest();
      }
    }

    /** The second half of ssl3_get_certificate_request. */
    method TakeRequest() returns (r: Ret)
      requires Inv() && state == ReadCertRequest && !reuseMessage
      modifies this`turn, this`state, this`reuseMessage, this`certReq
      ensures r == if (messageType == SERVER_DONE || messageType == CERTIFICATE_REQUEST) && oracle(old(turn)).ok then Go else Fatal
      ensures r == Go ==> Inv() && state == ReadServerDone && reuseMessage == (messageType == SERVER_DONE)
      ensures certReq == if r == Go && messageType == CERTIFICATE_REQUEST then 1 else 0
    {
      certReq := 0;
      if messageType != SERVER_DONE && messageType != CERTIFICATE_REQUEST {
        return Fatal;
      }
      r := Accept(ReadServerDone, messageType == SERVER_DONE);
      if r == Go && messageType == CERTIFICATE_REQUEST {
        certReq := 1;
      }
    }

    ghost method TellRequest()
      requires At(5, false) && OneMore(messageType) && !hit && state == ReadServerDone
      requires messageType == (if reuseMessage then SERVER_DONE else CERTIFICATE_REQUEST) && certReq == if reuseMessage then 0 else 1
      modifies this`talk
      ensures Said()
    {
      Tell(5, talk.choices.(request := !reuseMessage, verify := false), messageType);
    }

    /** After ServerHelloDone: our certificate exactly if one was requested, else the key exchange. */
    method OnServerDone() returns (r: Ret)
      requires Inv() && Said() && state == ReadServerDone
      modifies this
      ensures r != Fatal ==> Inv() && Said()
      ensures r == Go ==> state == if certReq != 0 then WriteCert else WriteKeyExchange
      ensures Willing() && old(AtHand()) ==> r == Go
    {
      r := Hear(Some(SERVER_DONE), 30);
      if r == Go {
        r := Accept(if certReq != 0 then WriteCert else WriteKeyExchange, false);
      }
      if r == Go {
        TellDone();
      }
    }

    ghost method TellDone()
      requires At(6, false) && OneMore(14) && !hit && !reuseMessage && (certReq != 0 <==> talk.choices.request)
      requires state == if certReq != 0 then WriteCert else WriteKeyExchange
      modifies this`talk
      ensures Said()
    {
      talk := Next(talk, talk.choices);
      if certReq == 0 {
        talk := Skip(talk, talk.choices);
      }
    }

    /** The hello, certificate, key exchange and verify messages of the client. */
    method OnClientMessage() returns (r: Ret)
      requires Inv() && Said() && Sends(state)
      modifies this
      ensures r != Fatal ==> Inv() && Said()
      ensures r == Go ==> hit == old(hit) && Moves(old(state), state, hit, ticketExpected, certReq)
      ensures Willing() ==> r == Go
    {
      var c;
      r, c := Send();
      if r == Go {
        AfterSending(c);
      }
    }

    method AfterSending(c: Choice)
      requires Inv() && Sends(state) && Placed() && OneMore(Kind(state))
      modifies this`state, this`changeCipherSpec, this`certReq, this`talk
      ensures Inv() && Said() && Moves(old(state), state, hit, ticketExpected, certReq)
    {
      ghost var was := state;
      MoveOn(c);
      TellSent(was);
    }

    method Send() returns (r: Ret, c: Choice)
      requires Inv() && Said() && Sends(state)
      modifies this`turn, this`transcript
      ensures r != Fatal ==> Inv()
      ensures r == Blocked ==> Said()
      ensures r == Go ==> Placed() && OneMore(Kind(state))
      ensures Willing() ==> r == Go
    {
      r, c := SendMessage(Kind(state));
    }

    /** The state after a message of ours. */
    method MoveOn(c: Choice)
      requires Inv() && Sends(state)
      modifies this`state, this`changeCipherSpec, this`certReq
      ensures Inv() && Moves(old(state), state, hit, ticketExpected, certReq)
      ensures certReq == if old(state) != WriteCert then old(certReq) else if c.haveCert then 1 else 2
      ensures state == WriteCertVerify <==> old(state) == WriteKeyExchange && certReq == 1 && !c.skipVerify
    {
      if state == WriteHello {
        state := ReadServerHello;
      } else if state == WriteCert {
        certReq := if c.haveCert then 1 else 2;
        state := WriteKeyExchange;
      } else if state == WriteKeyExchange && certReq == 1 && !c.skipVerify {
        state := WriteCertVerify;
      } else {
        state := WriteChange;
        changeCipherSpec := false;
      }
    }

    ghost method TellSent(was: HsState)
      requires !hit && !reuseMessage && Sends(was) && At(Stage(was, false), false) && Noted(was, talk.choices, certReq)
      requires Moves(was, state, hit, ticketExpected, certReq) && (was == WriteCert ==> certReq != 0) && OneMore(Kind(was))
      modifies this`talk
      ensures Said()
    {
      if was == WriteKeyExchange {
        TellSentKeys();
      } else {
        Tell(Stage(was, false), talk.choices.(verify := was == WriteCertVerify), Kind(was));
      }
    }

    ghost method TellSentKeys()
      requires !hit && !reuseMessage && At(8, false) && (certReq != 0 <==> talk.choices.request) && OneMore(16)
      requires state == WriteChange || (state == WriteCertVerify && certReq == 1)
      modifies this`talk
      ensures Said()
    {
      talk := KeysSent(talk, state == WriteCertVerify);
    }

    /** ssl3_send_change_cipher_spec, then the new write keys. */
    method OnWriteChange() returns (r: Ret)
      requires Inv() && Said() && (state == WriteChange || state == WriteChangeB)
      modifies this`turn, this`state, this`log
      ensures r != Fatal ==> Inv() && Said()
      ensures r == Go ==> state == WriteFinished
      ensures Willing() ==> r == Go
    {
      state := WriteChangeB;
      var c := Consult();
      if !c.ready {
        return Blocked;
      }
      NoteChange();
      r := if c.ok then Go else Fatal;
    }

    method NoteChange()
      requires Inv() && state == WriteChangeB
      modifies this`state, this`log
      ensures Inv() && state == WriteFinished
    {
      log := log + [WroteCcs];
      state := WriteFinished;
    }

    /** ssl3_send_finished; from here on the peer's ChangeCipherSpec is welcome. */
    method OnWriteFinished() returns (r: Ret)
      requires Inv() && Said() && (state == WriteFinished || state == WriteFinishedB)
      modifies this
      ensures r != Fatal ==> Inv() && Said()
      ensures r == Go ==> state == Flush && hit == old(hit) && ccsOk
      ensures r == Blocked ==> ccsOk == old(ccsOk)
      ensures Willing() ==> r == Go
    {
      r := SendFinished();
      if r == Go {
        AfterFinished();
        TellOurs();
      }
    }

    method SendFinished() returns (r: Ret)
      requires Inv() && Said() && (state == WriteFinished || state == WriteFinishedB)
      modifies this`turn, this`transcript, this`state
      ensures r != Fatal ==> Inv() && state == WriteFinishedB
      ensures r == Blocked ==> Said()
      ensures r == Go ==> At(if hit then 4 else 10, hit) && OneMore(20) && !reuseMessage
      ensures Willing() ==> r == Go
    {
      state := WriteFinishedB;
      var c;
      r, c := SendMessage(FINISHED);
    }

    ghost method TellOurs()
      requires At(if hit then 4 else 10, hit) && OneMore(20) && !reuseMessage && state == Flush
      modifies this`talk
      ensures Said()
    {
      Tell(if hit then 4 else 10, talk.choices, 20);
    }

    /** The flags and states once the Finished is out. */
    method AfterFinished()
      requires Inv() && state == WriteFinishedB
      modifies this`log, this`ccsOk, this`state, this`nextState
      ensures Inv() && state == Flush && ccsOk
    {
      log := log + [WroteFinished];
      ccsOk := true;
      state := Flush;
      if hit {
        nextState := Established;
      } else {
        nextState := if ticketExpected then ReadTicket else ReadFinished;
      }
    }

    /** ssl3_get_new_session_ticket; the server may omit it. */
    method OnTicket() returns (r: Ret)
      requires Inv() && Said() && state == ReadTicket
      modifies this
      ensures r != Fatal ==> Inv() && Said()
      ensures r == Go ==> state == ReadFinished && hit == old(hit)
      ensures Willing() && old(AtHand()) ==> r == Go
    {
      r := Hear(None, 16384);
      if r == Go {
        r := TakeTicket();
      }
      if r == Go {
        TellTicket();
      }
    }

    ghost method TellTicket()
      requires At(if hit then 2 else 11, hit) && OneMore(messageType) && state == ReadFinished
      requires messageType == if reuseMessage then FINISHED else NEW_SESSION_TICKET
      modifies this`talk
      ensures Said()
    {
      Tell(if hit then 2 else 11, talk.choices.(ticket := !reuseMessage), messageType);
    }

    /** The ticket, or the Finished kept in its stead. */
    method TakeTicket() returns (r: Ret)
      requires Inv() && state == ReadTicket && !reuseMessage && (messageType == FINISHED ==> FinishedTaken())
      modifies this`turn, this`state, this`reuseMessage
      ensures r == if messageType == FINISHED || (messageType == NEW_SESSION_TICKET && oracle(old(turn)).ok) then Go else Fatal
      ensures r == Go ==> Inv() && state == ReadFinished
      ensures r == Go ==> messageType == if reuseMessage then FINISHED else NEW_SESSION_TICKET
    {
      var c := Consult();
      if messageType == FINISHED {
        reuseMessage := true;
      } else if messageType != NEW_SESSION_TICKET || !c.ok {
        return Fatal;
      }
      state := ReadFinished;
      r := Go;
    }

    /** ssl3_get_finished: only after ChangeCipherSpec, and only the MAC of the handshake so far. */
    method OnReadFinished() returns (r: Ret)
      requires Inv() && Said() && state == ReadFinished
      modifies this
      ensures r != Fatal ==> Inv() && Said()
      ensures r == Go ==> hit == old(hit) && state == if hit then WriteChange else Established
      ensures var q := Gated(old(incoming), old(turn), true, old(changeCipherSpec), old(cipherChosen), old(closed), 0, oracle);
              !old(reuseMessage) && q.ret == Go && q.kind == FINISHED ==>
                (r == Go <==> (old(changeCipherSpec) || q.accepted) && |q.body| == 12 && q.body == mac(old(transcript)))
    {
      ghost var types, kept := Types(transcript), reuseMessage;
      r := TakePeerFinished();
      if r == Go {
        TellTheirs(types, kept);
      }
    }

    /** Both halves of ssl3_get_finished. */
    method TakePeerFinished() returns (r: Ret)
      requires Inv() && state == ReadFinished
      modifies this`incoming, this`turn, this`ccsOk, this`changeCipherSpec, this`closed, this`peerFinished, this`peerContext, this`log
      modifies this`reuseMessage, this`messageType, this`messageBody, this`transcript, this`state
      ensures r != Fatal ==> Inv()
      ensures r == Go ==> Types(transcript) == old(Types(transcript)) + Optional(!old(reuseMessage), 20)
      ensures r == Go ==> !reuseMessage && (old(reuseMessage) ==> old(messageType) == 20) && state == if hit then WriteChange else Established
      ensures r == Blocked ==> transcript == old(transcript) && !old(reuseMessage) && !reuseMessage && state == ReadFinished
      ensures var q := Gated(old(incoming), old(turn), true, old(changeCipherSpec), old(cipherChosen), old(closed), 0, oracle);
              !old(reuseMessage) && q.ret == Go && q.kind == FINISHED ==>
                (r == Go <==> (old(changeCipherSpec) || q.accepted) && |q.body| == 12 && q.body == mac(old(transcript)))
    {
      r := ReadPeerFinished();
      if r == Go {
        r := CheckPeerFinished();
      }
    }

    /** The first half of ssl3_get_finished. */
    method ReadPeerFinished() returns (r: Ret)
      requires Inv() && state == ReadFinished
      modifies this`incoming, this`turn, this`ccsOk, this`changeCipherSpec, this`closed, this`peerFinished, this`peerContext, this`log
      modifies this`reuseMessage, this`messageType, this`messageBody, this`transcript
      ensures r == Blocked ==> Inv() && transcript == old(transcript) && !old(reuseMessage)
      ensures r != Fatal ==> !reuseMessage
      ensures r == Go ==> FinishedTaken() && if hit then Peer([]) else Peer([WroteCcs, WroteFinished])
      ensures r == Go ==> Types(transcript) == old(Types(transcript)) + Optional(!old(reuseMessage), 20)
      ensures r == Go && old(reuseMessage) ==> old(messageType) == 20
      ensures var q := Gated(old(incoming), old(turn), true, old(changeCipherSpec), old(cipherChosen), old(closed), 0, oracle);
              !old(reuseMessage) && q.ret == Go && q.kind == FINISHED ==>
                (r == Go <==> |q.body| <= 64)
                && (r == Go ==> messageBody == q.body && peerContext == old(transcript)
                                && (changeCipherSpec <==> old(changeCipherSpec) || q.accepted))
    {
      ccsOk := true;
      r := GetMessage(Some(FINISHED), 64);
    }

    ghost method TellTheirs(types: seq<nat>, kept: bool)
      requires At(if hit then 3 else 12, hit) && types == talk.said + Optional(kept, 20) && Types(transcript) == types + Optional(!kept, 20)
      requires !reuseMessage && state == if hit then WriteChange else Established
      modifies this`talk
      ensures Said()
    {
      Tell(if hit then 3 else 12, talk.choices, 20);
    }

    /** The second half of ssl3_get_finished: the message against the MAC. */
    method CheckPeerFinished() returns (r: Ret)
      requires state == ReadFinished && !reuseMessage && FinishedTaken()
      requires if hit then Peer([]) else Peer([WroteCcs, WroteFinished])
      modifies this`changeCipherSpec, this`log, this`state
      ensures r == Go ==> Inv() && state == if hit then WriteChange else Established
      ensures r != Blocked && (r == Go <==> old(changeCipherSpec) && |peerFinished| == 12 && messageBody == peerFinished)
    {
      if !changeCipherSpec {
        return Fatal;
      }
      changeCipherSpec := false;
      if |peerFinished| != 12 || messageBody != peerFinished {
        return Fatal;
      }
      ghost var was := log;
      log := log + [GotFinished(messageBody, peerContext)];
      assert hit ==> was == [GotCcs];
      assert !hit ==> was == [WroteCcs, WroteFinished, GotCcs];
      state := if hit then WriteChange else Established;
      r := Go;
    }

    /** BIO_flush of what was buffered. */
    method OnFlush() returns (r: Ret)
      requires Inv() && Said() && state == Flush
      modifies this`turn, this`state, this`talk
      ensures r != Fatal ==> Inv() && Said()
      ensures r == Go ==> state == if hit then Established else if ticketExpected then ReadTicket else ReadFinished
      ensures Willing() ==> r == Go
    {
      var c := Consult();
      if !c.ready {
        return Blocked;
      }
      TakeFlushed();
      if !hit && state == ReadFinished {
        TellNoTicket();
      }
      r := Go;
    }

    /** On to where the flush was to lead. */
    method TakeFlushed()
      requires Inv() && state == Flush
      modifies this`state
      ensures Inv() && state == if hit then Established else if ticketExpected then ReadTicket else ReadFinished
    {
      state := nextState;
    }

    ghost method TellNoTicket()
      requires At(11, false) && Types(transcript) == talk.said && !reuseMessage && !hit && state == ReadFinished
      modifies this`talk
      ensures Said()
    {
      talk := Skip(talk, talk.choices.(ticket := false));
    }

    /** The set-up before the first message. */
    method OnStart() returns (r: Ret)
      requires Inv() && Said() && state == Before
      modifies this`turn, this`state
      ensures r != Fatal ==> Inv() && Said()
      ensures r == Go ==> state == WriteHello
      ensures Willing() ==> r == Go
    {
      var c := Consult();
      if !c.ok {
        return Fatal;
      }
      state := WriteHello;
      r := Go;
    }

    /** One turn of the switch. */
    method Step() returns (r: Ret)
      requires Inv() && Said() && state != Established
      modifies this
      ensures r != Fatal ==> Inv() && Said()
      ensures r == Go ==> Moves(old(state), state, hit, ticketExpected, certReq)
      ensures r == Go ==> hit == old(hit) || old(state) == ReadServerHello || old(state) == ReadCert
      ensures Willing() && (Writes(old(state)) || old(AtHand())) ==> r == Go
    {
      if Writes(state) {
        r := WriteStep();
        return;
      }
      match state
      case ReadServerHello => r := OnServerHello();
      case ReadCert => r := OnCert();
      case ReadCertStatus | ReadKeyExchange | ReadCertRequest | ReadServerDone => r := OnServerMessage();
      case ReadTicket => r := OnTicket();
      case ReadFinished => r := OnReadFinished();
    }

    /** The cases of the switch that wait for nothing from the peer. */
    method WriteStep() returns (r: Ret)
      requires Inv() && Said() && Writes(state)
      modifies this
      ensures r != Fatal ==> Inv() && Said()
      ensures r == Go ==> hit == old(hit) && Moves(old(state), state, hit, ticketExpected, certReq)
      ensures Willing() ==> r == Go
    {
      match state
      case Before => r := OnStart();
      case WriteHello | WriteCert | WriteKeyExchange | WriteCertVerify => r := OnClientMessage();
      case WriteChange | WriteChangeB => r := OnWriteChange();
      case WriteFinished | WriteFinishedB => r := OnWriteFinished();
      case Flush => r := OnFlush();
    }

    /** The messages of a completed handshake. */
    lemma Completed()
      requires Inv() && Said() && state == Established
      ensures InOrder(Types(transcript), hit)
    {
      AllPlaces(talk.choices);
      assert talk.said + [] == talk.said;
    }

    /** ssl3_connect: on from where the last call stopped, with what has arrived since. */
    method Connect(arrived: seq<Arrival>) returns (r: Ret)
      requires Inv() && Said()
      modifies this
      ensures r != Fatal ==> Inv() && Said()
      ensures r == Go ==> state == Established
    {
      incoming := incoming + arrived;
      r := Turns();
      if r == Go {
        var c := Consult();
        r := if c.ok then Go else Fatal;
      }
    }

    /** A turn leads on. */
    method Turn() returns (r: Ret)
      requires Inv() && Said() && state != Established
      modifies this
      ensures r != Fatal ==> Inv() && Said()
      ensures r == Go ==> Rank(state, hit) > Rank(old(state), old(hit))
    {
      r := Step();
      if r == Go {
        MovesForward(old(state), old(hit), state, hit, ticketExpected, certReq);
      }
    }

    /** The loop around the switch. */
    method Turns() returns (r: Ret)
      requires Inv() && Said()
      modifies this
      ensures r != Fatal ==> Inv() && Said()
      ensures r == Go ==> state == Established
    {
      while state != Established
        invariant Inv() && Said()
        decreases 16 - Rank(state, hit)
      {
        r := Turn();
        if r != Go {
          return;
        }
      }
      r := Go;
    }
  }

  /** A whole handshake, over any number of calls, whatever arrives and whatever the handlers decide. If it
      completes, this end has written its ChangeCipherSpec and Finished, and has accepted exactly one
      ChangeCipherSpec and then a Finished that matches; unless resumed, not before its own Finished. The messages
      exchanged are those of a full or a resumed handshake, in that order, and no others. */
  method Run(mac: Transcript -> seq<byte>, oracle: nat -> Choice, maxCertList: nat, calls: seq<seq<Arrival>>)
      returns (done: bool, resumed: bool, log: seq<Event>, transcript: Transcript)
    ensures done && !resumed ==> Full(mac, log, transcript)
    ensures done && resumed ==> Resumed(mac, log, transcript)
    ensures done ==> InOrder(Types(transcript), resumed)
  {
    var client := new Client(mac, oracle, maxCertList);
    done, resumed, log, transcript := false, false, [], [];
    for i := 0 to |calls|
      invariant client.Inv() && client.Said() && client.mac == mac && fresh(client) && !done
    {
      var r := client.Connect(calls[i]);
      if r == Fatal {
        return;
      }
      if r == Go {
        client.Completed();
        return true, client.hit, client.log, client.transcript;
      }
    }
  }

  /** No peer ChangeCipherSpec comes before the client's Finished in a full handshake, and there is exactly one. */
  lemma FullOrder(mac: Transcript -> seq<byte>, events: seq<Event>, transcript: Transcript)
    requires Full(mac, events, transcript)
    ensures forall i :: 0 <= i < |events| ==> (events[i] == GotCcs <==> i == 2) && (events[i] == WroteFinished <==> i == 1)
    ensures forall i :: 0 <= i < |events| ==> (events[i].GotFinished? <==> i == 3) && (events[i] == WroteCcs <==> i == 0)
  {
  }
}
