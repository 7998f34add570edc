/** The stored form of a session, ssl/ssl_asn1.c: what is written, what is read
    back, and that reading inverts writing for every mix of optional fields. */
module SessionFormat {
  import opened Asn1
  import opened ByteBuilder
  import opened ByteReader

  const TIME_TAG: byte := 0xa1
  const TIMEOUT_TAG: byte := 0xa2
  const PEER_CERT_TAG: byte := 0xa3
  const SESSION_ID_CTX_TAG: byte := 0xa4
  const VERIFY_RESULT_TAG: byte := 0xa5
  const HOSTNAME_TAG: byte := 0xa6
  const LIFETIME_TAG: byte := 0xa9
  const TICKET_TAG: byte := 0xaa

  /** struct ssl_session_st, as far as it is stored. `cipher` is the value of the cipher pointer, if set;
      a certificate is a name whose encoding is given by the caller. */
  datatype Session = Session(
    version: int, cipher: Option<nat>, cipherId: nat, sessionId: seq<byte>, masterKey: seq<byte>, time: int, timeout: int,
    peer: Option<nat>, sidCtx: seq<byte>, verifyResult: int, hostname: Option<seq<byte>>, lifetimeHint: int,
    ticket: Option<seq<byte>>)

  /** i2d_X509 and d2i_X509; encoding fails by being empty. */
  datatype CertCodec = CertCodec(encode: nat -> seq<byte>, decode: seq<byte> -> Option<nat>)

  /** The certificate codec inverts on this certificate. */
  predicate Inverts(codec: CertCodec, peer: Option<nat>) {
    peer.Some? ==> codec.encode(peer.value) != [] && codec.decode(codec.encode(peer.value)) == Some(peer.value)
  }

  predicate NoZero(s: seq<byte>) {
    forall i :: 0 <= i < |s| ==> s[i] != 0
  }

  /** What the C types hold. */
  predicate Typed(s: Session) {
    s.version < 0x8000_0000 && s.cipherId < 0x1_0000_0000 && (s.cipher.Some? ==> s.cipher.value < 0x1_0000)
    && |s.sessionId| <= 32 && |s.masterKey| <= 48 && |s.sidCtx| <= 32
    && s.time < 0x8000_0000_0000_0000 && s.timeout < 0x8000_0000_0000_0000
    && s.verifyResult < 0x8000_0000_0000_0000 && s.lifetimeHint < 0x8000_0000_0000_0000
    && (s.hostname.Some? ==> NoZero(s.hostname.value))
  }

  /** What the stored form can hold: numbers of 64 bits and a cipher value of 16. */
  predicate Writable(s: Session) {
    s.version < 0x1_0000_0000_0000_0000 && s.time < 0x1_0000_0000_0000_0000 && s.timeout < 0x1_0000_0000_0000_0000
    && s.verifyResult < 0x1_0000_0000_0000_0000 && s.lifetimeHint < 0x1_0000_0000_0000_0000
    && (s.cipher.Some? ==> s.cipher.value < 0x1_0000)
  }

  // What the reader accepts, from the back: no zero byte in a host name, identifiers of 32 bytes, a key of 48,
  // and numbers that a long, or an int for the version, can hold.
  predicate TailAccepted(s: Session) {
    (s.hostname.Some? ==> forall i :: 0 <= i < |s.hostname.value| ==> s.hostname.value[i] != 0)
    && s.lifetimeHint <= 0x7fff_ffff_ffff_ffff
  }
  predicate RearAccepted(s: Session) { |s.sidCtx| <= 32 && s.verifyResult <= 0x7fff_ffff_ffff_ffff && TailAccepted(s) }
  predicate RestAccepted(s: Session) {
    |s.sessionId| <= 32 && |s.masterKey| <= 48 && s.time <= 0x7fff_ffff_ffff_ffff && s.timeout <= 0x7fff_ffff_ffff_ffff && RearAccepted(s)
  }
  predicate Accepted(s: Session) { s.version <= 0x7fff_ffff && RestAccepted(s) }

  /** What the C types hold can be written and is accepted. */
  lemma TypedAccepted(s: Session)
    requires Typed(s)
    ensures Writable(s) && Accepted(s)
  {
  }

  // ---------- the encoding ----------

  function CipherValue(s: Session): nat {
    if s.cipher.Some? then s.cipher.value else s.cipherId % 0x1_0000
  }

  /** Tag, length and contents, for any contents. */
  function El(tag: byte, contents: seq<byte>): (r: seq<byte>)
    ensures |r| > |contents| && r[0] == tag
  {
    [tag] + Prefix(Der, |contents|) + contents
  }

  function IntEl(v: nat): seq<byte> { El(INTEGER, IntegerOctets(v)) }

  function OctEl(s: seq<byte>): seq<byte> { El(OCTETSTRING, s) }

  /** A number that is left out when it is not positive. */
  function OptInt(tag: byte, v: int): seq<byte> {
    if v > 0 then El(tag, IntEl(v)) else []
  }

  function OptOctets(tag: byte, s: Option<seq<byte>>): seq<byte> {
    if s.Some? then El(tag, OctEl(s.value)) else []
  }

  function OptCert(codec: CertCodec, peer: Option<nat>): seq<byte> {
    if peer.Some? then El(PEER_CERT_TAG, codec.encode(peer.value)) else []
  }

  // What is left to read before each field, from the back.
  function FromTicket(s: Session): seq<byte> { OptOctets(TICKET_TAG, s.ticket) }
  function FromLifetime(s: Session): seq<byte> { OptInt(LIFETIME_TAG, s.lifetimeHint) + FromTicket(s) }
  function FromHostname(s: Session): seq<byte> { OptOctets(HOSTNAME_TAG, s.hostname) + FromLifetime(s) }
  function FromVerify(s: Session): seq<byte> { OptInt(VERIFY_RESULT_TAG, s.verifyResult) + FromHostname(s) }
  function FromContext(s: Session): seq<byte> { El(SESSION_ID_CTX_TAG, OctEl(s.sidCtx)) + FromVerify(s) }
  function FromPeer(codec: CertCodec, s: Session): seq<byte> { OptCert(codec, s.peer) + FromContext(s) }
  function FromTimeout(codec: CertCodec, s: Session): seq<byte> { OptInt(TIMEOUT_TAG, s.timeout) + FromPeer(codec, s) }
  function FromTime(codec: CertCodec, s: Session): seq<byte> { OptInt(TIME_TAG, s.time) + FromTimeout(codec, s) }
  function FromKey(codec: CertCodec, s: Session): seq<byte> { OctEl(s.masterKey) + FromTime(codec, s) }
  function FromId(codec: CertCodec, s: Session): seq<byte> { OctEl(s.sessionId) + FromKey(codec, s) }
  function FromCipher(codec: CertCodec, s: Session): seq<byte> { OctEl(ToBytes(CipherValue(s), 2)) + FromId(codec, s) }
  function FromVersion(codec: CertCodec, s: Session): seq<byte>
    requires s.version >= 0
  {
    IntEl(s.version) + FromCipher(codec, s)
  }

  function Body(codec: CertCodec, s: Session): seq<byte>
    requires s.version >= 0
  {
    IntEl(1) + FromVersion(codec, s)
  }

  /** Sessions the encoder accepts. */
  predicate Encodable(codec: CertCodec, s: Session) {
    s.version >= 0 && s.time >= 0 && s.timeout >= 0 && s.verifyResult >= 0
    && (s.peer.Some? ==> codec.encode(s.peer.value) != [])
  }

  /** i2d_SSL_SESSION */
  function Encoding(codec: CertCodec, s: Session): seq<byte>
    requires s.version >= 0
  {
    El(SEQUENCE, Body(codec, s))
  }

  // ---------- the decoder, field by field ----------

  /** d2i_SSL_SESSION from the ticket on. */
  function ReadTicket(d: seq<byte>, s: Session): Option<Session> {
    match TakeOptionalOctets(d, TICKET_TAG)
    case None => None
    case Some((present, t, rest)) => Some(s.(ticket := if present && t != [] then Some(t) else None))
  }

  /** `prior` is the ticket length of the session decoded into, 0 for a fresh one. */
  function ReadLifetime(d: seq<byte>, s: Session, prior: nat): Option<Session> {
    match TakeOptionalUint64(d, LIFETIME_TAG, 0)
    case None => None
    case Some((v, rest)) =>
      if v > 0x7fff_ffff_ffff_ffff then None
      else
        var absent := if prior > 0 && s.sessionId != [] then -1 else 0;
        ReadTicket(rest, s.(lifetimeHint := if v > 0 then v else absent))
  }

  function ReadHostname(d: seq<byte>, s: Session, prior: nat): Option<Session> {
    match TakeOptionalOctets(d, HOSTNAME_TAG)
    case None => None
    case Some((present, h, rest)) =>
      if present && !NoZero(h) then None else ReadLifetime(rest, s.(hostname := if present then Some(h) else None), prior)
  }

  function ReadVerify(d: seq<byte>, s: Session, prior: nat): Option<Session> {
    match TakeOptionalUint64(d, VERIFY_RESULT_TAG, 0)
    case None => None
    case Some((v, rest)) =>
      if v > 0x7fff_ffff_ffff_ffff then None else ReadHostname(rest, s.(verifyResult := v), prior)
  }

  function ReadContext(d: seq<byte>, s: Session, prior: nat): Option<Session> {
    match TakeOptionalOctets(d, SESSION_ID_CTX_TAG)
    case None => None
    case Some((present, c, rest)) =>
      if present && |c| > 32 then None else ReadVerify(rest, s.(sidCtx := if present then c else []), prior)
  }

  function ReadPeer(d: seq<byte>, s: Session, prior: nat, codec: CertCodec): Option<Session> {
    match TakeOptional(d, PEER_CERT_TAG)
    case None => None
    case Some((present, c, rest)) =>
      if present && codec.decode(c) == None then None
      else ReadContext(rest, s.(peer := if present then codec.decode(c) else None), prior)
  }

  function ReadTimeout(d: seq<byte>, s: Session, prior: nat, codec: CertCodec): Option<Session> {
    match TakeOptionalUint64(d, TIMEOUT_TAG, 0)
    case None => None
    case Some((v, rest)) =>
      if v > 0x7fff_ffff_ffff_ffff then None else ReadPeer(rest, s.(timeout := if v != 0 then v else 3), prior, codec)
  }

  function ReadTime(d: seq<byte>, s: Session, prior: nat, codec: CertCodec, now: int): Option<Session> {
    match TakeOptionalUint64(d, TIME_TAG, 0)
    case None => None
    case Some((v, rest)) =>
      if v > 0x7fff_ffff_ffff_ffff then None else ReadTimeout(rest, s.(time := if v != 0 then v else now), prior, codec)
  }

  function ReadKey(d: seq<byte>, s: Session, prior: nat, codec: CertCodec, now: int): Option<Session> {
    match TakeAsn1(d, OCTETSTRING)
    case None => None
    case Some((k, rest)) => if |k| > 48 then None else ReadTime(rest, s.(masterKey := k), prior, codec, now)
  }

  function ReadId(d: seq<byte>, s: Session, prior: nat, codec: CertCodec, now: int): Option<Session> {
    match TakeAsn1(d, OCTETSTRING)
    case None => None
    case Some((id, rest)) => if |id| > 32 then None else ReadKey(rest, s.(sessionId := id), prior, codec, now)
  }

  /** The cipher suite: an octet string of two bytes. */
  function TakeCipher(d: seq<byte>): Option<(nat, seq<byte>)> {
    match TakeAsn1(d, OCTETSTRING)
    case None => None
    case Some((c, rest)) => if |c| != 2 then None else Some((FromBytes(c), rest))
  }

  /** The cipher is known by its value only. */
  function WithCipher(s: Session, value: nat): Session {
    s.(cipher := None, cipherId := 0x300_0000 + value)
  }

  function WithVersion(s: Session, version: int): Session {
    s.(version := version)
  }

  function ReadCipher(d: seq<byte>, s: Session, prior: nat, codec: CertCodec, now: int): Option<Session> {
    match TakeCipher(d)
    case None => None
    case Some((v, rest)) => ReadId(rest, WithCipher(s, v), prior, codec, now)
  }

  function ReadVersion(d: seq<byte>, s: Session, prior: nat, codec: CertCodec, now: int): Option<Session> {
    match TakeUint64(d)
    case None => None
    case Some((v, rest)) => if v > 0x7fff_ffff then None else ReadCipher(rest, WithVersion(s, v), prior, codec, now)
  }

  function ReadFormat(d: seq<byte>, s: Session, prior: nat, codec: CertCodec, now: int): Option<Session> {
    match TakeUint64(d)
    case None => None
    case Some((format, rest)) => if format != 1 then None else ReadVersion(rest, s, prior, codec, now)
  }

  /** d2i_SSL_SESSION: the session and what follows it. Elements after the ticket are not looked at. */
  function Decoding(d: seq<byte>, s: Session, prior: nat, codec: CertCodec, now: int): Option<(Session, seq<byte>)> {
    match TakeAsn1(d, SEQUENCE)
    case None => None
    case Some((body, rest)) =>
      match ReadFormat(body, s, prior, codec, now)
      case None => None
      case Some(s') => Some((s', rest))
  }

  // ---------- reading back one field ----------

  lemma ElIsTlv(tag: byte, contents: seq<byte>)
    requires |contents| < 0x1_0000_0000
    ensures El(tag, contents) == Tlv(tag, contents)
  {
  }

  lemma ElTaken(tag: byte, contents: seq<byte>, rest: seq<byte>)
    requires IsShortTag(tag) && |El(tag, contents)| < 0x1_0000_0000
    ensures TakeAsn1(El(tag, contents) + rest, tag) == Some((contents, rest))
  {
    ElIsTlv(tag, contents);
    TakeAsn1Iff(El(tag, contents) + rest, tag, contents, rest);
  }

  lemma IntTaken(v: nat, rest: seq<byte>)
    requires v < 0x1_0000_0000_0000_0000
    ensures |IntEl(v)| < 0x100 && TakeUint64(IntEl(v) + rest) == Some((v, rest))
  {
    TakeUint64Iff(IntEl(v) + rest, v, rest);
    ElIsTlv(INTEGER, IntegerOctets(v));
  }

  /** Nothing, or an element whose tag is larger. */
  predicate Beyond(tag: byte, rest: seq<byte>) {
    rest == [] || rest[0] > tag
  }

  lemma OptIntTaken(tag: byte, v: int, rest: seq<byte>)
    requires IsShortTag(tag) && 0 <= v < 0x1_0000_0000_0000_0000 && Beyond(tag, rest)
    ensures TakeOptionalUint64(OptInt(tag, v) + rest, tag, 0) == Some((v, rest))
  {
    if v > 0 {
      IntTaken(v, []);
      assert IntEl(v) + [] == IntEl(v);
      ElTaken(tag, IntEl(v), rest);
    } else {
      assert OptInt(tag, v) + rest == rest;
    }
  }

  lemma OptOctetsTaken(tag: byte, s: Option<seq<byte>>, rest: seq<byte>)
    requires IsShortTag(tag) && |OptOctets(tag, s)| < 0x1_0000_0000 && Beyond(tag, rest)
    ensures TakeOptionalOctets(OptOctets(tag, s) + rest, tag) == Some((s.Some?, if s.Some? then s.value else [], rest))
  {
    if s.Some? {
      ElTaken(OCTETSTRING, s.value, []);
      assert OctEl(s.value) + [] == OctEl(s.value);
      ElTaken(tag, OctEl(s.value), rest);
    } else {
      assert OptOctets(tag, s) + rest == rest;
    }
  }

  lemma OptCertTaken(codec: CertCodec, peer: Option<nat>, rest: seq<byte>)
    requires |OptCert(codec, peer)| < 0x1_0000_0000 && Beyond(PEER_CERT_TAG, rest)
    ensures TakeOptional(OptCert(codec, peer) + rest, PEER_CERT_TAG)
            == Some((peer.Some?, if peer.Some? then codec.encode(peer.value) else [], rest))
  {
    if peer.Some? {
      ElTaken(PEER_CERT_TAG, codec.encode(peer.value), rest);
    } else {
      assert OptCert(codec, peer) + rest == rest;
    }
  }

  // ---------- reading back the session, from the last field ----------

  function KeptTicket(t: Option<seq<byte>>): Option<seq<byte>> {
    if t == Some([]) then None else t
  }

  function KeptHint(hint: int): int { if hint > 0 then hint else 0 }

  lemma BackTicket(s: Session, acc: Session)
    requires |FromTicket(s)| < 0x1_0000_0000
    ensures ReadTicket(FromTicket(s), acc) == Some(acc.(ticket := KeptTicket(s.ticket)))
    ensures Beyond(LIFETIME_TAG, FromTicket(s))
  {
    OptOctetsTaken(TICKET_TAG, s.ticket, []);
    assert FromTicket(s) + [] == FromTicket(s);
  }

  lemma BackLifetime(s: Session, acc: Session)
    requires Writable(s) && |FromLifetime(s)| < 0x1_0000_0000
    ensures ReadLifetime(FromLifetime(s), acc, 0)
            == if s.lifetimeHint > 0x7fff_ffff_ffff_ffff then None
               else Some(acc.(lifetimeHint := KeptHint(s.lifetimeHint), ticket := KeptTicket(s.ticket)))
    ensures Beyond(HOSTNAME_TAG, FromLifetime(s))
  {
    BackTicket(s, acc.(lifetimeHint := KeptHint(s.lifetimeHint)));
    OptIntTaken(LIFETIME_TAG, KeptHint(s.lifetimeHint), FromTicket(s));
    assert OptInt(LIFETIME_TAG, KeptHint(s.lifetimeHint)) == OptInt(LIFETIME_TAG, s.lifetimeHint);
  }

  /** The fields from the host name on. */
  function TailOf(s: Session, acc: Session): Session {
    acc.(hostname := s.hostname, lifetimeHint := KeptHint(s.lifetimeHint), ticket := KeptTicket(s.ticket))
  }

  lemma HostnameTaken(name: Option<seq<byte>>, rest: seq<byte>, acc: Session)
    requires |OptOctets(HOSTNAME_TAG, name)| < 0x1_0000_0000 && Beyond(HOSTNAME_TAG, rest)
    ensures ReadHostname(OptOctets(HOSTNAME_TAG, name) + rest, acc, 0)
            == if name.Some? && !NoZero(name.value) then None else ReadLifetime(rest, acc.(hostname := name), 0)
    ensures Beyond(VERIFY_RESULT_TAG, OptOctets(HOSTNAME_TAG, name) + rest)
  {
    OptOctetsTaken(HOSTNAME_TAG, name, rest);
  }

  lemma BackHostname(s: Session, acc: Session)
    requires Writable(s) && |FromHostname(s)| < 0x1_0000_0000
    ensures ReadHostname(FromHostname(s), acc, 0) == if TailAccepted(s) then Some(TailOf(s, acc)) else None
    ensures Beyond(VERIFY_RESULT_TAG, FromHostname(s))
  {
    BackLifetime(s, acc.(hostname := s.hostname));
    HostnameTaken(s.hostname, FromLifetime(s), acc);
  }

  lemma VerifyTaken(v: int, rest: seq<byte>, acc: Session)
    requires 0 <= v < 0x1_0000_0000_0000_0000 && Beyond(VERIFY_RESULT_TAG, rest)
    ensures ReadVerify(OptInt(VERIFY_RESULT_TAG, v) + rest, acc, 0)
            == if v <= 0x7fff_ffff_ffff_ffff then ReadHostname(rest, acc.(verifyResult := v), 0) else None
    ensures Beyond(SESSION_ID_CTX_TAG, OptInt(VERIFY_RESULT_TAG, v) + rest)
  {
    OptIntTaken(VERIFY_RESULT_TAG, v, rest);
  }

  lemma BackVerify(s: Session, acc: Session)
    requires Writable(s) && s.verifyResult >= 0 && |FromVerify(s)| < 0x1_0000_0000
    ensures ReadVerify(FromVerify(s), acc, 0)
            == if s.verifyResult <= 0x7fff_ffff_ffff_ffff && TailAccepted(s) then Some(TailOf(s, acc.(verifyResult := s.verifyResult))) else None
    ensures Beyond(SESSION_ID_CTX_TAG, FromVerify(s))
  {
    BackHostname(s, acc.(verifyResult := s.verifyResult));
    VerifyTaken(s.verifyResult, FromHostname(s), acc);
  }

  lemma BackContext(s: Session, acc: Session)
    requires Writable(s) && s.verifyResult >= 0 && |FromContext(s)| < 0x1_0000_0000
    ensures ReadContext(FromContext(s), acc, 0)
            == if RearAccepted(s) then Some(TailOf(s, acc.(sidCtx := s.sidCtx, verifyResult := s.verifyResult))) else None
    ensures Beyond(PEER_CERT_TAG, FromContext(s))
  {
    BackVerify(s, acc.(sidCtx := s.sidCtx));
    assert El(SESSION_ID_CTX_TAG, OctEl(s.sidCtx)) == OptOctets(SESSION_ID_CTX_TAG, Some(s.sidCtx));
    OptOctetsTaken(SESSION_ID_CTX_TAG, Some(s.sidCtx), FromVerify(s));
  }

  /** The fields from the certificate on. */
  function RearOf(s: Session, acc: Session): Session {
    TailOf(s, acc.(peer := s.peer, sidCtx := s.sidCtx, verifyResult := s.verifyResult))
  }

  lemma BackPeer(codec: CertCodec, s: Session, acc: Session)
    requires Writable(s) && Encodable(codec, s) && Inverts(codec, s.peer) && |FromPeer(codec, s)| < 0x1_0000_0000
    ensures ReadPeer(FromPeer(codec, s), acc, 0, codec) == if RearAccepted(s) then Some(RearOf(s, acc)) else None
    ensures Beyond(TIMEOUT_TAG, FromPeer(codec, s))
  {
    BackContext(s, acc.(peer := s.peer));
    OptCertTaken(codec, s.peer, FromContext(s));
  }

  function KeptTimeout(t: int): int { if t != 0 then t else 3 }

  function KeptTime(t: int, now: int): int { if t != 0 then t else now }

  lemma BackTimeout(codec: CertCodec, s: Session, acc: Session)
    requires Writable(s) && Encodable(codec, s) && Inverts(codec, s.peer) && |FromTimeout(codec, s)| < 0x1_0000_0000
    ensures ReadTimeout(FromTimeout(codec, s), acc, 0, codec)
            == if s.timeout <= 0x7fff_ffff_ffff_ffff && RearAccepted(s) then Some(RearOf(s, acc.(timeout := KeptTimeout(s.timeout)))) else None
    ensures Beyond(TIME_TAG, FromTimeout(codec, s))
  {
    BackPeer(codec, s, acc.(timeout := KeptTimeout(s.timeout)));
    OptIntTaken(TIMEOUT_TAG, s.timeout, FromPeer(codec, s));
  }

  lemma BackTime(codec: CertCodec, s: Session, acc: Session, now: int)
    requires Writable(s) && Encodable(codec, s) && Inverts(codec, s.peer) && |FromTime(codec, s)| < 0x1_0000_0000
    ensures ReadTime(FromTime(codec, s), acc, 0, codec, now)
            == if s.time <= 0x7fff_ffff_ffff_ffff && s.timeout <= 0x7fff_ffff_ffff_ffff && RearAccepted(s)
               then Some(RearOf(s, acc.(time := KeptTime(s.time, now), timeout := KeptTimeout(s.timeout)))) else None
  {
    BackTimeout(codec, s, acc.(time := KeptTime(s.time, now)));
    OptIntTaken(TIME_TAG, s.time, FromTimeout(codec, s));
  }

  /** The fields from the session id on. */
  function RestOf(s: Session, acc: Session, now: int): Session {
    RearOf(s, acc.(sessionId := s.sessionId, masterKey := s.masterKey, time := KeptTime(s.time, now), timeout := KeptTimeout(s.timeout)))
  }

  lemma KeyTaken(key: seq<byte>, rest: seq<byte>, acc: Session, codec: CertCodec, now: int)
    requires |OctEl(key)| < 0x1_0000_0000
    ensures ReadKey(OctEl(key) + rest, acc, 0, codec, now)
            == if |key| <= 48 then ReadTime(rest, acc.(masterKey := key), 0, codec, now) else None
  {
    ElTaken(OCTETSTRING, key, rest);
  }

  lemma IdTaken(id: seq<byte>, rest: seq<byte>, acc: Session, codec: CertCodec, now: int)
    requires |OctEl(id)| < 0x1_0000_0000
    ensures ReadId(OctEl(id) + rest, acc, 0, codec, now)
            == if |id| <= 32 then ReadKey(rest, acc.(sessionId := id), 0, codec, now) else None
  {
    ElTaken(OCTETSTRING, id, rest);
  }

  lemma BackId(codec: CertCodec, s: Session, acc: Session, now: int)
    requires Writable(s) && Encodable(codec, s) && Inverts(codec, s.peer) && |FromId(codec, s)| < 0x1_0000_0000
    ensures ReadId(FromId(codec, s), acc, 0, codec, now) == if RestAccepted(s) then Some(RestOf(s, acc, now)) else None
  {
    var acc1 := acc.(sessionId := s.sessionId);
    BackTime(codec, s, acc1.(masterKey := s.masterKey), now);
    KeyTaken(s.masterKey, FromTime(codec, s), acc1, codec, now);
    IdTaken(s.sessionId, FromKey(codec, s), acc, codec, now);
  }

  lemma BackCipher(codec: CertCodec, s: Session, acc: Session, now: int)
    requires Writable(s) && Encodable(codec, s) && Inverts(codec, s.peer) && |FromCipher(codec, s)| < 0x1_0000_0000
    ensures ReadCipher(FromCipher(codec, s), acc, 0, codec, now)
            == if RestAccepted(s) then Some(RestOf(s, WithCipher(acc, CipherValue(s)), now)) else None
  {
    BackId(codec, s, WithCipher(acc, CipherValue(s)), now);
    CipherTaken(CipherValue(s), FromId(codec, s));
  }

  lemma CipherTaken(v: nat, rest: seq<byte>)
    requires v < 0x1_0000
    ensures TakeCipher(OctEl(ToBytes(v, 2)) + rest) == Some((v, rest))
  {
    Pow256Values();
    WrittenIsRead(v, 2);
    ElTaken(OCTETSTRING, ToBytes(v, 2), rest);
  }

  /** What a session becomes by being stored and read into a fresh one. */
  function Restored(s: Session, into: Session, now: int): Session {
    RestOf(s, WithCipher(WithVersion(into, s.version), CipherValue(s)), now)
  }

  lemma SkipVersion(codec: CertCodec, s: Session, acc: Session, now: int, r: Option<Session>)
    requires 0 <= s.version <= 0x7fff_ffff
    requires ReadCipher(FromCipher(codec, s), WithVersion(acc, s.version), 0, codec, now) == r
    ensures ReadVersion(FromVersion(codec, s), acc, 0, codec, now) == r
  {
    VersionTaken(s.version, FromCipher(codec, s), acc, codec, now);
  }

  lemma BackFromCipher(codec: CertCodec, s: Session, acc: Session, now: int)
    requires Writable(s) && Encodable(codec, s) && Inverts(codec, s.peer) && |FromCipher(codec, s)| < 0x1_0000_0000
    ensures ReadCipher(FromCipher(codec, s), WithVersion(acc, s.version), 0, codec, now)
            == if RestAccepted(s) then Some(Restored(s, acc, now)) else None
  {
    BackCipher(codec, s, WithVersion(acc, s.version), now);
  }

  lemma BackVersion(codec: CertCodec, s: Session, acc: Session, now: int)
    requires Writable(s) && Encodable(codec, s) && Inverts(codec, s.peer) && |FromCipher(codec, s)| < 0x1_0000_0000
    ensures ReadVersion(FromVersion(codec, s), acc, 0, codec, now) == if Accepted(s) then Some(Restored(s, acc, now)) else None
  {
    if s.version <= 0x7fff_ffff {
      BackFromCipher(codec, s, acc, now);
      SkipVersion(codec, s, acc, now, if RestAccepted(s) then Some(Restored(s, acc, now)) else None);
    } else {
      IntTaken(s.version, FromCipher(codec, s));
    }
  }

  lemma VersionTaken(v: nat, rest: seq<byte>, acc: Session, codec: CertCodec, now: int)
    requires v <= 0x7fff_ffff
    ensures ReadVersion(IntEl(v) + rest, acc, 0, codec, now) == ReadCipher(rest, WithVersion(acc, v), 0, codec, now)
  {
    IntTaken(v, rest);
  }

  lemma ShorterVersion(codec: CertCodec, s: Session)
    requires s.version >= 0
    ensures |FromCipher(codec, s)| < |FromVersion(codec, s)| < |Body(codec, s)|
  {
  }

  lemma BackFormat(codec: CertCodec, s: Session, acc: Session, now: int)
    requires Writable(s) && Encodable(codec, s) && Inverts(codec, s.peer) && |Body(codec, s)| < 0x1_0000_0000
    ensures ReadFormat(Body(codec, s), acc, 0, codec, now) == if Accepted(s) then Some(Restored(s, acc, now)) else None
  {
    var rest := FromVersion(codec, s);
    ShorterVersion(codec, s);
    BackVersion(codec, s, acc, now);
    IntTaken(1, rest);
  }

  lemma BodyTaken(body: seq<byte>, rest: seq<byte>, acc: Session, codec: CertCodec, now: int)
    requires |El(SEQUENCE, body)| < 0x1_0000_0000
    ensures var r := ReadFormat(body, acc, 0, codec, now);
            Decoding(El(SEQUENCE, body) + rest, acc, 0, codec, now) == if r.Some? then Some((r.value, rest)) else None
  {
    ElTaken(SEQUENCE, body, rest);
  }

  /** Storing and reading back, whatever follows the stored bytes: what is within the limits comes back, all else is refused. */
  lemma RoundTrip(codec: CertCodec, s: Session, into: Session, now: int, rest: seq<byte>)
    requires Writable(s) && Encodable(codec, s) && Inverts(codec, s.peer) && |Encoding(codec, s)| < 0x1_0000_0000
    ensures Decoding(Encoding(codec, s) + rest, into, 0, codec, now) == if Accepted(s) then Some((Restored(s, into, now), rest)) else None
  {
    BackFormat(codec, s, into, now);
    BodyTaken(Body(codec, s), rest, into, codec, now);
  }

  /** The stored form by its tags: universal 2, 4 and 0x30, and the context tags 1 to 6, 9 and 10. */
  lemma StoredForm(codec: CertCodec, s: Session)
    requires s.version >= 0
    ensures Encoding(codec, s) == El(0x30, El(2, [1]) + El(2, IntegerOctets(s.version)) + El(4, StoredCipher(s))
                                           + El(4, s.sessionId) + El(4, s.masterKey) + StoredOptions(codec, s))
  {
    IntegerOctetsOne();
    Regroup(El(2, [1]), El(2, IntegerOctets(s.version)), FromCipher(codec, s));
    var a := El(2, [1]) + El(2, IntegerOctets(s.version));
    Regroup(a, El(4, StoredCipher(s)), FromId(codec, s));
    Regroup(a + El(4, StoredCipher(s)), El(4, s.sessionId), FromKey(codec, s));
    Regroup(a + El(4, StoredCipher(s)) + El(4, s.sessionId), El(4, s.masterKey), FromTime(codec, s));
    OptionsRegrouped(codec, s);
  }

  /** Two bytes: of the cipher if there is one, else the low ones of its identifier. */
  function StoredCipher(s: Session): seq<byte> {
    if s.cipher.Some? then ToBytes(s.cipher.value, 2) else ToBytes(s.cipherId % 0x1_0000, 2)
  }

  /** The optional fields and the context, each in an element of its own tag. */
  function StoredOptions(codec: CertCodec, s: Session): seq<byte> {
    (if s.time > 0 then El(0xa1, El(2, IntegerOctets(s.time))) else [])
    + (if s.timeout > 0 then El(0xa2, El(2, IntegerOctets(s.timeout))) else [])
    + (if s.peer.Some? then El(0xa3, codec.encode(s.peer.value)) else [])
    + El(0xa4, El(4, s.sidCtx))
    + (if s.verifyResult > 0 then El(0xa5, El(2, IntegerOctets(s.verifyResult))) else [])
    + (if s.hostname.Some? then El(0xa6, El(4, s.hostname.value)) else [])
    + (if s.lifetimeHint > 0 then El(0xa9, El(2, IntegerOctets(s.lifetimeHint))) else [])
    + (if s.ticket.Some? then El(0xaa, El(4, s.ticket.value)) else [])
  }

  lemma OptionsRegrouped(codec: CertCodec, s: Session)
    ensures FromTime(codec, s) == StoredOptions(codec, s)
  {
    var a := OptInt(0xa1, s.time);
    var b := a + OptInt(0xa2, s.timeout);
    var c := b + OptCert(codec, s.peer);
    var d := c + El(0xa4, OctEl(s.sidCtx));
    var e := d + OptInt(0xa5, s.verifyResult);
    var f := e + OptOctets(0xa6, s.hostname);
    Regroup(a, OptInt(0xa2, s.timeout), FromPeer(codec, s));
    Regroup(b, OptCert(codec, s.peer), FromContext(s));
    Regroup(c, El(0xa4, OctEl(s.sidCtx)), FromVerify(s));
    Regroup(d, OptInt(0xa5, s.verifyResult), FromHostname(s));
    Regroup(e, OptOctets(0xa6, s.hostname), FromLifetime(s));
    Regroup(f, OptInt(0xa9, s.lifetimeHint), FromTicket(s));
  }

  lemma Regroup(a: seq<byte>, b: seq<byte>, c: seq<byte>)
    ensures a + (b + c) == a + b + c
  {
  }

  lemma IntegerOctetsOne()
    ensures IntegerOctets(1) == [1]
  {
  }

  /** Another format number, or a cipher value that is not two bytes long, is refused. */
  lemma ForeignRefused(v: nat, c: seq<byte>, rest: seq<byte>, acc: Session, prior: nat, codec: CertCodec, now: int)
    requires v < 0x1_0000_0000_0000_0000 && |El(4, c)| < 0x1_0000_0000
    ensures v != 1 ==> ReadFormat(El(2, IntegerOctets(v)) + rest, acc, prior, codec, now) == None
    ensures |c| != 2 ==> ReadCipher(El(4, c) + rest, acc, prior, codec, now) == None
  {
    IntTaken(v, rest);
    ElTaken(OCTETSTRING, c, rest);
  }

  /** What survives: everything but the cipher pointer, an unset time or timeout, a non-positive lifetime hint
      and an empty ticket, each of which becomes its default. */
  lemma RestoredFields(s: Session, into: Session, now: int)
    requires Typed(s)
    ensures var r := Restored(s, into, now);
            r.version == s.version && CipherValue(r) == CipherValue(s) && r.sessionId == s.sessionId && r.masterKey == s.masterKey
            && r.peer == s.peer && r.sidCtx == s.sidCtx && r.verifyResult == s.verifyResult && r.hostname == s.hostname
            && (s.time != 0 ==> r.time == s.time) && (s.timeout != 0 ==> r.timeout == s.timeout)
            && (s.lifetimeHint > 0 ==> r.lifetimeHint == s.lifetimeHint)
            && (s.ticket != Some([]) ==> r.ticket == s.ticket)
    ensures Restored(s, into, now) == s.(cipher := None, cipherId := 0x300_0000 + CipherValue(s)) <==>
              (s.time == 0 ==> now == 0) && s.timeout != 0 && s.lifetimeHint >= 0 && s.ticket != Some([])
  {
  }
}
