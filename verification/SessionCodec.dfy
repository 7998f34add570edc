/** SSL_SESSION_encode and d2i_SSL_SESSION of ssl/ssl_asn1.c, run on the builder and
    the cursor. */
module SessionCodec {
  import opened Asn1
  import opened ByteBuilder
  import opened ByteReader
  import opened SessionFormat
  import IntegerWriter

  // ---------- reading ----------

  /** The lifetime hint and the ticket. */
  method FillTicket(session: Cbs, acc: Session, prior: nat) returns (r: Option<Session>)
    modifies session
    ensures r == ReadLifetime(old(session.data), acc, prior)
  {
    var hint := if prior > 0 && |acc.sessionId| > 0 then -1 else 0;
    var ok, lifetime := session.GetOptionalUint64(LIFETIME_TAG, 0);
    if !ok || lifetime > 0x7fff_ffff_ffff_ffff {
      return None;
    }
    if lifetime > 0 {
      hint := lifetime;
    }
    var present, ticket;
    ok, present, ticket := session.GetOptionalOctets(TICKET_TAG);
    if !ok {
      return None;
    }
    r := Some(acc.(lifetimeHint := hint).(ticket := if present && |ticket| > 0 then Some(ticket) else None));
  }

  /** From the verify result on. */
  method FillTail(session: Cbs, acc: Session, prior: nat) returns (r: Option<Session>)
    modifies session
    ensures r == ReadVerify(old(session.data), acc, prior)
  {
    var s := acc;
    var ok, verifyResult := session.GetOptionalUint64(VERIFY_RESULT_TAG, 0);
    if !ok || verifyResult > 0x7fff_ffff_ffff_ffff {
      return None;
    }
    s := s.(verifyResult := verifyResult);
    var present, hostname;
    ok, present, hostname := session.GetOptionalOctets(HOSTNAME_TAG);
    if !ok || (present && !NoZero(hostname)) {
      return None;
    }
    s := s.(hostname := if present then Some(hostname) else None);
    r := FillTicket(session, s, prior);
  }

  /** The certificate and the session id context. */
  method FillRear(session: Cbs, acc: Session, prior: nat, codec: CertCodec) returns (r: Option<Session>)
    modifies session
    ensures r == ReadPeer(old(session.data), acc, prior, codec)
  {
    var s := acc.(peer := None);
    var ok, present, cert := session.GetOptional(PEER_CERT_TAG);
    if !ok {
      return None;
    }
    if present {
      s := s.(peer := codec.decode(cert));
      if s.peer == None {
        return None;
      }
    }
    s := s.(sidCtx := []);
    var context;
    ok, present, context := session.GetOptionalOctets(SESSION_ID_CTX_TAG);
    if !ok || (present && |context| > 32) {
      return None;
    }
    if present {
      s := s.(sidCtx := context);
    }
    r := FillTail(session, s, prior);
  }

  /** Time and timeout, with their defaults. */
  method FillMiddle(session: Cbs, acc: Session, prior: nat, codec: CertCodec, now: int) returns (r: Option<Session>)
    modifies session
    ensures r == ReadTime(old(session.data), acc, prior, codec, now)
  {
    var s := acc.(time := now);
    var ok, time := session.GetOptionalUint64(TIME_TAG, 0);
    if !ok || time > 0x7fff_ffff_ffff_ffff {
      return None;
    }
    if time != 0 {
      s := s.(time := time);
    }
    s := s.(timeout := 3);
    var timeout;
    ok, timeout := session.GetOptionalUint64(TIMEOUT_TAG, 0);
    if !ok || timeout > 0x7fff_ffff_ffff_ffff {
      return None;
    }
    if timeout != 0 {
      s := s.(timeout := timeout);
    }
    r := FillRear(session, s, prior, codec);
  }

  /** d2i_SSL_SESSION: decoding into `into`, whose ticket was `prior` bytes long. */
  method Decode(d: seq<byte>, into: Session, prior: nat, codec: CertCodec, now: int) returns (r: Option<(Session, seq<byte>)>)
    ensures r == Decoding(d, into, prior, codec, now)
  {
    var cbs := new Cbs(d);
    var ok, body := cbs.GetAsn1(SEQUENCE);
    if !ok {
      return None;
    }
    var rest := cbs.data;
    var session := new Cbs(body);
    var filled := FillSession(session, into, prior, codec, now);
    r := if filled.Some? then Some((filled.value, rest)) else None;
  }

  /** The fields that are always there, then the others. */
  method FillSession(session: Cbs, into: Session, prior: nat, codec: CertCodec, now: int) returns (r: Option<Session>)
    modifies session
    ensures r == ReadFormat(old(session.data), into, prior, codec, now)
  {
    var s := into;
    var ok, version := session.GetAsn1Uint64();
    if !ok || version != 1 {
      return None;
    }
    var tlsVersion;
    ok, tlsVersion := session.GetAsn1Uint64();
    if !ok || tlsVersion > 0x7fff_ffff {
      return None;
    }
    r := FillSecrets(session, WithVersion(s, tlsVersion), prior, codec, now);
  }

  /** The cipher suite: two bytes and no more. */
  method GetCipher(session: Cbs) returns (ok: bool, value: nat)
    modifies session
    ensures ok == TakeCipher(old(session.data)).Some?
    ensures ok ==> TakeCipher(old(session.data)) == Some((value, session.data))
  {
    var suite;
    ok, suite := session.GetAsn1(OCTETSTRING);
    if !ok {
      return false, 0;
    }
    var cipherSuite := new Cbs(suite);
    ok, value := cipherSuite.GetU(2);
    assert |suite| == 2 ==> suite[..2] == suite;
    ok := ok && |cipherSuite.data| == 0;
  }

  lemma CipherStep(d: seq<byte>, acc: Session, prior: nat, codec: CertCodec, now: int, value: nat, rest: seq<byte>)
    requires TakeCipher(d) == Some((value, rest))
    ensures ReadCipher(d, acc, prior, codec, now)
            == ReadId(rest, WithCipher(acc, value), prior, codec, now)
  {
  }

  /** Cipher suite, session id and master key. */
  method FillSecrets(session: Cbs, acc: Session, prior: nat, codec: CertCodec, now: int) returns (r: Option<Session>)
    modifies session
    ensures r == ReadCipher(old(session.data), acc, prior, codec, now)
  {
    var ok, value := GetCipher(session);
    if !ok {
      return None;
    }
    var s := WithCipher(acc, value);
    CipherStep(old(session.data), acc, prior, codec, now, value, session.data);
    r := FillId(session, s, prior, codec, now);
  }

  /** Session id and master key, no longer than their arrays. */
  method FillId(session: Cbs, acc: Session, prior: nat, codec: CertCodec, now: int) returns (r: Option<Session>)
    modifies session
    ensures r == ReadId(old(session.data), acc, prior, codec, now)
  {
    var ok, id := session.GetAsn1(OCTETSTRING);
    if !ok || |id| > 32 {
      return None;
    }
    var s := acc.(sessionId := id);
    var key;
    ok, key := session.GetAsn1(OCTETSTRING);
    if !ok || |key| > 48 {
      return None;
    }
    r := FillMiddle(session, s.(masterKey := key), prior, codec, now);
  }

  // ---------- writing ----------

  /** The session element is open below the top of the buffer, and closing what is open behind it leaves `body` in it. */
  ghost predicate Holding(base: Buffer, top: Cbb, session: Cbb, body: seq<byte>)
    reads base, base.chain
  {
    base.Valid() && |base.chain| >= 2 && base.chain[0] == top && base.chain[1] == session
    && base.kinds[0] == Der && base.parts[0] == [SEQUENCE] && Closed(base.parts, base.kinds, 1) == body
    && forall i :: 0 <= i < |base.kinds| ==> base.kinds[i] == Der
  }

  /** Nothing but its length can keep this body from being written. */
  ghost predicate Able(base: Buffer, body: seq<byte>) {
    Roomy(base) && |body| <= 0xffff_fffe
  }

  /** Lengths of a part fit when the length of the whole does. */
  lemma {:induction false} PartsFit(parts: seq<seq<byte>>, kinds: seq<Kind>, k: nat)
    requires Shape(parts, kinds) && k <= |kinds| && forall i :: 0 <= i < |kinds| ==> kinds[i] == Der
    requires |Closed(parts, kinds, k)| <= 0xffff_fffe
    ensures AllFit(parts, kinds, k)
    decreases |kinds| - k
  {
    if k < |kinds| {
      PartsFit(parts, kinds, k + 1);
    }
  }

  /** A little more at the session's level always fits. */
  lemma RoomInside(base: Buffer, top: Cbb, session: Cbb, body: seq<byte>, n: nat)
    requires Holding(base, top, session, body) && Able(base, body) && n <= 30
    ensures !Refused(base, base.parts, base.kinds, 1, n) && IntegerWriter.Spacious(base.parts, base.kinds, 1)
  {
    PartsFit(base.parts, base.kinds, 1);
    assert Before(base.parts, base.kinds, 0) == 0;
    assert Before(base.parts, base.kinds, 1) == 2;
  }

  /** An element opened at the session's level. */
  method OpenField(base: Buffer, top: Cbb, session: Cbb, tag: byte, ghost body: seq<byte>) returns (ok: bool, child: Cbb)
    requires Holding(base, top, session, body) && IsShortTag(tag)
    modifies base, base.chain`child, base.chain`offset, base.chain`pendingLenLen, base.chain`pendingIsAsn1, base.chain`base
    ensures fresh(child)
    ensures ok ==> Writing(base, child, 1, [top, session], [Der], [[SEQUENCE], body + [tag]], [])
    ensures Able(base, body) ==> ok
  {
    child := new Cbb();
    if Able(base, body) {
      RoomInside(base, top, session, body, 2);
    }
    assert base.chain[..2] == [top, session] && base.kinds[..1] == [Der] && base.parts[..1] == [[SEQUENCE]];
    ok := OpenElement(base, session, child, tag, 1, [top, session], [Der], [[SEQUENCE], body + [tag]]);
  }

  /** With only that element open, the session's contents are known. */
  lemma FieldHeld(base: Buffer, top: Cbb, session: Cbb, child: Cbb, tag: byte, body: seq<byte>, contents: seq<byte>)
    requires Writing(base, child, 1, [top, session], [Der], [[SEQUENCE], body + [tag]], contents)
    ensures Holding(base, top, session, body + El(tag, contents))
  {
    var parts := [[SEQUENCE], body + [tag], contents];
    assert base.parts == parts && base.kinds == [Der, Der] && base.chain == [top, session, child];
    assert Closed(parts, [Der, Der], 2) == contents;
    assert body + [tag] + Prefix(Der, |contents|) + contents == body + El(tag, contents);
  }

  /** CBB_add_bytes on the innermost builder. */
  method Fill(base: Buffer, child: Cbb, bytes: seq<byte>, ghost k: nat, ghost chain: seq<Cbb>, ghost kinds: seq<Kind>, ghost parts: seq<seq<byte>>)
      returns (ok: bool)
    requires |chain| == |parts| == k + 1 && |kinds| == k && Writing(base, child, k, chain, kinds, parts, [])
    modifies base, chain`child, chain`offset, chain`pendingLenLen, chain`pendingIsAsn1, chain`base, child
    ensures ok ==> Writing(base, child, k, chain, kinds, parts, bytes)
    ensures Roomy(base) && Length(parts, kinds) + 1 + |bytes| < 0x1_0000_0000_0000_0000 ==> ok
  {
    ghost var all := parts + [[]];
    LengthSnoc(parts, kinds, Der, []);
    assert base.Link(k + 1);
    ok := AddBytes(child, bytes, k + 1);
    AlreadyClosed(all, kinds + [Der]);
    if ok {
      assert base.chain == chain + [child] && base.kinds == kinds + [Der];
      assert [] + bytes == bytes;
      assert base.parts == parts + [bytes];
    }
  }

  lemma FieldLength(body: seq<byte>, tag: byte)
    ensures Length([[SEQUENCE], body + [tag]], [Der]) == |body| + 3
  {
    assert Before([[SEQUENCE], body + [tag]], [Der], 0) == 0;
    assert Before([[SEQUENCE], body + [tag]], [Der], 1) == 2;
  }

  /** CBB_add_asn1 and CBB_add_bytes on the new child. */
  method PutElement(base: Buffer, top: Cbb, session: Cbb, tag: byte, contents: seq<byte>, ghost body: seq<byte>) returns (ok: bool, child: Cbb)
    requires Holding(base, top, session, body) && IsShortTag(tag)
    modifies base, base.chain`child, base.chain`offset, base.chain`pendingLenLen, base.chain`pendingIsAsn1, base.chain`base
    ensures fresh(child)
    ensures ok ==> Holding(base, top, session, body + El(tag, contents)) && base.chain == [top, session, child]
    ensures Able(base, body + El(tag, contents)) ==> ok
  {
    FieldLength(body, tag);
    ok, child := OpenField(base, top, session, tag, body);
    if ok {
      ok := Fill(base, child, contents, 1, [top, session], [Der], [[SEQUENCE], body + [tag]]);
    }
    if ok {
      FieldHeld(base, top, session, child, tag, body, contents);
    }
  }

  /** CBB_add_asn1_uint64 at the session's level. */
  method PutInteger(base: Buffer, top: Cbb, session: Cbb, v: nat, ghost body: seq<byte>) returns (ok: bool)
    requires Holding(base, top, session, body) && v < 0x1_0000_0000_0000_0000
    modifies base, base.chain`child, base.chain`offset, base.chain`pendingLenLen, base.chain`pendingIsAsn1, base.chain`base
    ensures ok ==> Holding(base, top, session, body + IntEl(v)) && base.chain == [top, session]
    ensures Able(base, body) ==> ok
  {
    assert base.Link(1);
    if Able(base, body) {
      RoomInside(base, top, session, body, 21);
    }
    assert base.chain[..2] == [top, session] && base.kinds[..1] == [Der] && base.parts[..1] == [[SEQUENCE]];
    ok := IntegerWriter.AddAsn1Uint64(session, v, 1);
    if ok {
      ElIsTlv(INTEGER, IntegerOctets(v));
      assert base.parts == [[SEQUENCE], body + IntEl(v)];
      AlreadyClosed(base.parts, base.kinds);
    }
  }

  /** A number in an element of its own. */
  method PutTaggedInteger(base: Buffer, top: Cbb, session: Cbb, tag: byte, v: nat, ghost body: seq<byte>) returns (ok: bool, child: Cbb)
    requires Holding(base, top, session, body) && v < 0x1_0000_0000_0000_0000 && IsShortTag(tag)
    modifies base, base.chain`child, base.chain`offset, base.chain`pendingLenLen, base.chain`pendingIsAsn1, base.chain`base
    ensures fresh(child)
    ensures ok ==> Holding(base, top, session, body + El(tag, IntEl(v))) && base.chain == [top, session, child]
    ensures Able(base, body) ==> ok
  {
    FieldLength(body, tag);
    ok, child := OpenField(base, top, session, tag, body);
    if ok {
      ok := FillInteger(base, child, v, 1, [top, session], [Der], [[SEQUENCE], body + [tag]]);
    }
    if ok {
      FieldHeld(base, top, session, child, tag, body, IntEl(v));
    }
  }

  /** CBB_add_asn1_uint64 on the innermost builder. */
  method FillInteger(base: Buffer, child: Cbb, v: nat, ghost k: nat, ghost chain: seq<Cbb>, ghost kinds: seq<Kind>, ghost parts: seq<seq<byte>>)
      returns (ok: bool)
    requires v < 0x1_0000_0000_0000_0000
    requires |chain| == |parts| == k + 1 && |kinds| == k && Writing(base, child, k, chain, kinds, parts, [])
    modifies base, chain`child, chain`offset, chain`pendingLenLen, chain`pendingIsAsn1, chain`base, child
    ensures ok ==> Writing(base, child, k, chain, kinds, parts, IntEl(v))
    ensures Roomy(base) && Length(parts, kinds) + 30 < 0x1_0000_0000_0000_0000 ==> ok
  {
    ghost var all := parts + [[]];
    LengthSnoc(parts, kinds, Der, []);
    assert base.Link(k + 1);
    AlreadyClosed(all, kinds + [Der]);
    ok := IntegerWriter.AddAsn1Uint64(child, v, k + 1);
    if ok {
      ElIsTlv(INTEGER, IntegerOctets(v));
      assert base.chain == chain + [child] && base.kinds == kinds + [Der];
      assert [] + IntEl(v) == IntEl(v);
      assert base.parts == parts + [IntEl(v)];
    }
  }

  /** An octet string in an element of its own. */
  method PutTaggedOctets(base: Buffer, top: Cbb, session: Cbb, tag: byte, octets: seq<byte>, ghost body: seq<byte>)
      returns (ok: bool, child: Cbb, value: Cbb)
    requires Holding(base, top, session, body) && IsShortTag(tag)
    modifies base, base.chain`child, base.chain`offset, base.chain`pendingLenLen, base.chain`pendingIsAsn1, base.chain`base
    ensures fresh(child) && fresh(value)
    ensures ok ==> Holding(base, top, session, body + El(tag, OctEl(octets))) && base.chain == [top, session, child, value]
    ensures Able(base, body + El(tag, OctEl(octets))) ==> ok
  {
    FieldLength(body, tag);
    ok, child := OpenField(base, top, session, tag, body);
    value := new Cbb();
    ghost var chain, kinds, parts := [top, session, child], [Der, Der], [[SEQUENCE], body + [tag], [OCTETSTRING]];
    LengthSnoc([[SEQUENCE], body + [tag]], [Der], Der, [OCTETSTRING]);
    assert [[SEQUENCE], body + [tag]] + [[OCTETSTRING]] == parts && [Der] + [Der] == kinds;
    if ok {
      ok := OpenInner(base, child, value, [top, session], [Der], [[SEQUENCE], body + [tag]]);
    }
    if ok {
      ok := Fill(base, value, octets, 2, chain, kinds, parts);
    }
    if ok {
      NestedHeld(base, top, session, child, value, tag, body, octets);
    }
  }

  /** CBB_add_asn1 for an octet string inside an element just opened. */
  method OpenInner(base: Buffer, child: Cbb, value: Cbb, ghost chain: seq<Cbb>, ghost kinds: seq<Kind>, ghost parts: seq<seq<byte>>)
      returns (ok: bool)
    requires |chain| == |parts| == 2 && |kinds| == 1 && Writing(base, child, 1, chain, kinds, parts, [])
    requires value !in chain + [child]
    modifies base, chain`child, chain`offset, chain`pendingLenLen, chain`pendingIsAsn1, chain`base, child, value
    ensures ok ==> Writing(base, value, 2, chain + [child], kinds + [Der], parts + [[OCTETSTRING]], [])
    ensures Roomy(base) && Length(parts, kinds) + 3 < 0x1_0000_0000_0000_0000 ==> ok
  {
    ghost var all := parts + [[]];
    LengthSnoc(parts, kinds, Der, []);
    AlreadyClosed(all, kinds + [Der]);
    assert base.chain[..3] == chain + [child] && base.kinds[..2] == kinds + [Der] && base.parts[..2] == parts;
    assert [] + [OCTETSTRING] == [OCTETSTRING];
    ok := OpenElement(base, child, value, OCTETSTRING, 2, chain + [child], kinds + [Der], parts + [[OCTETSTRING]]);
  }

  lemma NestedHeld(base: Buffer, top: Cbb, session: Cbb, child: Cbb, value: Cbb, tag: byte, body: seq<byte>, octets: seq<byte>)
    requires Writing(base, value, 2, [top, session, child], [Der, Der], [[SEQUENCE], body + [tag], [OCTETSTRING]], octets)
    ensures Holding(base, top, session, body + El(tag, OctEl(octets)))
  {
    var parts, kinds := [[SEQUENCE], body + [tag], [OCTETSTRING], octets], [Der, Der, Der];
    assert base.parts == parts && base.kinds == kinds && base.chain == [top, session, child, value];
    NestedClosed(parts, kinds, body, tag, octets);
  }

  lemma NestedClosed(parts: seq<seq<byte>>, kinds: seq<Kind>, body: seq<byte>, tag: byte, octets: seq<byte>)
    requires |parts| == 4 && parts[1] == body + [tag] && parts[2] == [OCTETSTRING] && parts[3] == octets
    requires |kinds| == 3 && kinds[1] == Der && kinds[2] == Der
    ensures Closed(parts, kinds, 1) == body + El(tag, OctEl(octets))
  {
    var inner := OctEl(octets);
    assert Closed(parts, kinds, 3) == octets;
    assert Closed(parts, kinds, 2) == inner;
    assert body + [tag] + Prefix(Der, |inner|) + inner == body + El(tag, inner);
  }

  // ---------- one field after the other ----------

  /** Of the session's contents `full`, all but `rest` is written. */
  ghost predicate Ahead(base: Buffer, top: Cbb, session: Cbb, full: seq<byte>, rest: seq<byte>)
    reads base, base.chain
  {
    EndsWith(full, rest) && Holding(base, top, session, Done(full, rest))
  }

  predicate EndsWith(full: seq<byte>, rest: seq<byte>) {
    |rest| <= |full| && full[|full| - |rest|..] == rest
  }

  /** What comes before a suffix. */
  function Done(full: seq<byte>, rest: seq<byte>): seq<byte>
    requires |rest| <= |full|
  {
    full[..|full| - |rest|]
  }

  lemma Advance(full: seq<byte>, field: seq<byte>, rest: seq<byte>)
    requires EndsWith(full, field + rest)
    ensures EndsWith(full, rest) && Done(full, field + rest) + field == Done(full, rest)
  {
    var n := |full| - |field + rest|;
    var tail := full[n..];
    assert full[n + |field|..] == tail[|field|..] == rest;
    assert full[n..n + |field|] == tail[..|field|] == field;
    assert full[..n + |field|] == full[..n] + full[n..n + |field|];
  }

  /** Builders the chain gained are new. */
  twostate predicate OnlyNew(base: Buffer)
    reads base
  {
    forall i :: 0 <= i < |base.chain| ==> base.chain[i] in old(base.chain) || fresh(base.chain[i])
  }

  method WriteInteger(base: Buffer, top: Cbb, session: Cbb, v: nat, ghost full: seq<byte>, ghost rest: seq<byte>) returns (ok: bool)
    requires Ahead(base, top, session, full, IntEl(v) + rest) && v < 0x1_0000_0000_0000_0000
    modifies base, base.chain`child, base.chain`offset, base.chain`pendingLenLen, base.chain`pendingIsAsn1, base.chain`base
    ensures ok ==> Ahead(base, top, session, full, rest) && OnlyNew(base)
    ensures Able(base, full) ==> ok
  {
    Advance(full, IntEl(v), rest);
    ok := PutInteger(base, top, session, v, Done(full, IntEl(v) + rest));
  }

  method WriteElement(base: Buffer, top: Cbb, session: Cbb, tag: byte, contents: seq<byte>, ghost full: seq<byte>, ghost rest: seq<byte>)
      returns (ok: bool)
    requires Ahead(base, top, session, full, El(tag, contents) + rest) && IsShortTag(tag)
    modifies base, base.chain`child, base.chain`offset, base.chain`pendingLenLen, base.chain`pendingIsAsn1, base.chain`base
    ensures ok ==> Ahead(base, top, session, full, rest) && OnlyNew(base)
    ensures Able(base, full) ==> ok
  {
    ghost var field := El(tag, contents);
    Advance(full, field, rest);
    var child;
    ok, child := PutElement(base, top, session, tag, contents, Done(full, field + rest));
  }

  /** A number that is written unless it is 0 and must not be negative. */
  method WriteOptional(base: Buffer, top: Cbb, session: Cbb, tag: byte, v: int, ghost full: seq<byte>, ghost rest: seq<byte>)
      returns (ok: bool)
    requires Ahead(base, top, session, full, OptInt(tag, v) + rest) && v < 0x1_0000_0000_0000_0000 && IsShortTag(tag)
    modifies base, base.chain`child, base.chain`offset, base.chain`pendingLenLen, base.chain`pendingIsAsn1, base.chain`base
    ensures ok ==> v >= 0 && Ahead(base, top, session, full, rest) && OnlyNew(base)
    ensures Able(base, full) && v >= 0 ==> ok
  {
    if v == 0 {
      assert OptInt(tag, v) + rest == rest;
      return true;
    }
    if v < 0 {
      return false;
    }
    ok := WriteTagged(base, top, session, tag, v, full, rest);
  }

  method WriteTagged(base: Buffer, top: Cbb, session: Cbb, tag: byte, v: nat, ghost full: seq<byte>, ghost rest: seq<byte>)
      returns (ok: bool)
    requires Ahead(base, top, session, full, El(tag, IntEl(v)) + rest) && v < 0x1_0000_0000_0000_0000 && IsShortTag(tag)
    modifies base, base.chain`child, base.chain`offset, base.chain`pendingLenLen, base.chain`pendingIsAsn1, base.chain`base
    ensures ok ==> Ahead(base, top, session, full, rest) && OnlyNew(base)
    ensures Able(base, full) ==> ok
  {
    ghost var field := El(tag, IntEl(v));
    Advance(full, field, rest);
    var child;
    ok, child := PutTaggedInteger(base, top, session, tag, v, Done(full, field + rest));
  }

  method WriteOctets(base: Buffer, top: Cbb, session: Cbb, tag: byte, octets: seq<byte>, ghost full: seq<byte>, ghost rest: seq<byte>)
      returns (ok: bool)
    requires Ahead(base, top, session, full, El(tag, OctEl(octets)) + rest) && IsShortTag(tag)
    modifies base, base.chain`child, base.chain`offset, base.chain`pendingLenLen, base.chain`pendingIsAsn1, base.chain`base
    ensures ok ==> Ahead(base, top, session, full, rest) && OnlyNew(base)
    ensures Able(base, full) ==> ok
  {
    ghost var field := El(tag, OctEl(octets));
    Advance(full, field, rest);
    var child, value;
    ok, child, value := PutTaggedOctets(base, top, session, tag, octets, Done(full, field + rest));
  }

  /** The format and protocol versions. */
  method EncodeVersions(base: Buffer, top: Cbb, session: Cbb, version: nat, ghost full: seq<byte>, ghost rest: seq<byte>) returns (ok: bool)
    requires version < 0x8000_0000 && Ahead(base, top, session, full, IntEl(1) + (IntEl(version) + rest))
    modifies base, base.chain`child, base.chain`offset, base.chain`pendingLenLen, base.chain`pendingIsAsn1, base.chain`base
    ensures ok ==> Ahead(base, top, session, full, rest) && OnlyNew(base)
    ensures Able(base, full) ==> ok
  {
    ok := WriteInteger(base, top, session, 1, full, IntEl(version) + rest);
    if ok {
      ok := WriteInteger(base, top, session, version, full, rest);
    }
  }

  /** Two octet strings, one after the other. */
  method WritePair(base: Buffer, top: Cbb, session: Cbb, a: seq<byte>, b: seq<byte>, ghost full: seq<byte>, ghost rest: seq<byte>)
      returns (ok: bool)
    requires Ahead(base, top, session, full, OctEl(a) + (OctEl(b) + rest))
    modifies base, base.chain`child, base.chain`offset, base.chain`pendingLenLen, base.chain`pendingIsAsn1, base.chain`base
    ensures ok ==> Ahead(base, top, session, full, rest) && OnlyNew(base)
    ensures Able(base, full) ==> ok
  {
    ok := WriteElement(base, top, session, OCTETSTRING, a, full, OctEl(b) + rest);
    if ok {
      ok := WriteElement(base, top, session, OCTETSTRING, b, full, rest);
    }
  }

  /** Cipher suite, session id and master key. */
  method EncodeSecrets(base: Buffer, top: Cbb, session: Cbb, s: Session, codec: CertCodec, ghost full: seq<byte>) returns (ok: bool)
    requires Typed(s) && Ahead(base, top, session, full, FromCipher(codec, s))
    modifies base, base.chain`child, base.chain`offset, base.chain`pendingLenLen, base.chain`pendingIsAsn1, base.chain`base
    ensures ok ==> Ahead(base, top, session, full, FromTime(codec, s)) && OnlyNew(base)
    ensures Able(base, full) ==> ok
  {
    var cid := s.cipherId % 0x1_0000;
    if s.cipher.Some? {
      cid := s.cipher.value;
    }
    ok := WriteElement(base, top, session, OCTETSTRING, ToBytes(cid, 2), full, FromId(codec, s));
    if ok {
      ok := WritePair(base, top, session, s.sessionId, s.masterKey, full, FromTime(codec, s));
    }
  }

  /** Time and timeout. */
  method EncodeTimes(base: Buffer, top: Cbb, session: Cbb, s: Session, codec: CertCodec, ghost full: seq<byte>) returns (ok: bool)
    requires Typed(s) && Ahead(base, top, session, full, FromTime(codec, s))
    modifies base, base.chain`child, base.chain`offset, base.chain`pendingLenLen, base.chain`pendingIsAsn1, base.chain`base
    ensures ok ==> s.time >= 0 && s.timeout >= 0 && Ahead(base, top, session, full, FromPeer(codec, s)) && OnlyNew(base)
    ensures Able(base, full) && s.time >= 0 && s.timeout >= 0 ==> ok
  {
    ok := WriteOptional(base, top, session, TIME_TAG, s.time, full, FromTimeout(codec, s));
    if ok {
      ok := WriteOptional(base, top, session, TIMEOUT_TAG, s.timeout, full, FromPeer(codec, s));
    }
  }

  /** The certificate, encoded by its own codec. */
  method EncodePeer(base: Buffer, top: Cbb, session: Cbb, s: Session, codec: CertCodec, ghost full: seq<byte>) returns (ok: bool)
    requires Ahead(base, top, session, full, FromPeer(codec, s))
    modifies base, base.chain`child, base.chain`offset, base.chain`pendingLenLen, base.chain`pendingIsAsn1, base.chain`base
    ensures ok ==> (s.peer.Some? ==> codec.encode(s.peer.value) != [])
    ensures ok ==> Ahead(base, top, session, full, FromContext(s)) && OnlyNew(base)
    ensures Able(base, full) && (s.peer.Some? ==> codec.encode(s.peer.value) != []) ==> ok
  {
    if s.peer.None? {
      assert OptCert(codec, s.peer) + FromContext(s) == FromContext(s);
      return true;
    }
    var bytes := codec.encode(s.peer.value);
    if |bytes| == 0 {
      return false;
    }
    ok := WriteElement(base, top, session, PEER_CERT_TAG, bytes, full, FromContext(s));
  }

  /** The session id context, always, and the verify result. */
  method EncodeContext(base: Buffer, top: Cbb, session: Cbb, s: Session, ghost full: seq<byte>) returns (ok: bool)
    requires Typed(s) && Ahead(base, top, session, full, FromContext(s))
    modifies base, base.chain`child, base.chain`offset, base.chain`pendingLenLen, base.chain`pendingIsAsn1, base.chain`base
    ensures ok ==> s.verifyResult >= 0 && Ahead(base, top, session, full, FromHostname(s)) && OnlyNew(base)
    ensures Able(base, full) && s.verifyResult >= 0 ==> ok
  {
    ok := WriteOctets(base, top, session, SESSION_ID_CTX_TAG, s.sidCtx, full, FromVerify(s));
    if ok {
      ok := WriteOptional(base, top, session, VERIFY_RESULT_TAG, s.verifyResult, full, FromHostname(s));
    }
  }

  /** An octet string that may be missing. */
  method WriteOptionalOctets(base: Buffer, top: Cbb, session: Cbb, tag: byte, octets: Option<seq<byte>>, ghost full: seq<byte>, ghost rest: seq<byte>)
      returns (ok: bool)
    requires Ahead(base, top, session, full, OptOctets(tag, octets) + rest) && IsShortTag(tag)
    modifies base, base.chain`child, base.chain`offset, base.chain`pendingLenLen, base.chain`pendingIsAsn1, base.chain`base
    ensures ok ==> Ahead(base, top, session, full, rest) && OnlyNew(base)
    ensures Able(base, full) ==> ok
  {
    if octets.None? {
      assert OptOctets(tag, octets) + rest == rest;
      return true;
    }
    ok := WriteOctets(base, top, session, tag, octets.value, full, rest);
  }

  /** The lifetime hint, only if positive. */
  method EncodeLifetime(base: Buffer, top: Cbb, session: Cbb, hint: int, ghost full: seq<byte>, ghost rest: seq<byte>) returns (ok: bool)
    requires hint < 0x8000_0000_0000_0000 && Ahead(base, top, session, full, OptInt(LIFETIME_TAG, hint) + rest)
    modifies base, base.chain`child, base.chain`offset, base.chain`pendingLenLen, base.chain`pendingIsAsn1, base.chain`base
    ensures ok ==> Ahead(base, top, session, full, rest) && OnlyNew(base)
    ensures Able(base, full) ==> ok
  {
    if hint > 0 {
      ok := WriteOptional(base, top, session, LIFETIME_TAG, hint, full, rest);
    } else {
      assert OptInt(LIFETIME_TAG, hint) + rest == rest;
      ok := true;
    }
  }

  /** Host name, lifetime hint and ticket. */
  method EncodeTail(base: Buffer, top: Cbb, session: Cbb, s: Session, ghost full: seq<byte>) returns (ok: bool)
    requires Typed(s) && Ahead(base, top, session, full, FromHostname(s))
    modifies base, base.chain`child, base.chain`offset, base.chain`pendingLenLen, base.chain`pendingIsAsn1, base.chain`base
    ensures ok ==> Ahead(base, top, session, full, []) && OnlyNew(base)
    ensures Able(base, full) ==> ok
  {
    ok := WriteOptionalOctets(base, top, session, HOSTNAME_TAG, s.hostname, full, FromLifetime(s));
    if !ok {
      return;
    }
    ok := EncodeLifetime(base, top, session, s.lifetimeHint, full, FromTicket(s));
    if !ok {
      return;
    }
    assert FromTicket(s) == OptOctets(TICKET_TAG, s.ticket) + [];
    ok := WriteOptionalOctets(base, top, session, TICKET_TAG, s.ticket, full, []);
  }

  /** CBB_init and the SEQUENCE around everything. */
  method Begin(allocates: nat -> bool) returns (ok: bool, top: Cbb, session: Cbb, base: Buffer)
    ensures fresh(base) && fresh(top) && fresh(session) && base.canResize && base.allocates == allocates
    ensures Ample(allocates) ==> ok
    ensures ok ==> Holding(base, top, session, []) && base.chain == [top, session] && top.base == base && top.isTopLevel
  {
    top := new Cbb();
    Init(top, [], true, allocates);
    base := top.base;
    session := new Cbb();
    ok := OpenSequence(base, top, session);
  }

  /** CBB_add_asn1 of the SEQUENCE on an empty builder. */
  method OpenSequence(base: Buffer, top: Cbb, session: Cbb) returns (ok: bool)
    requires base.Valid() && base.chain == [top] && base.parts == [[]] && base.kinds == [] && session != top
    modifies base, top`child, top`offset, top`pendingLenLen, top`pendingIsAsn1, top`base, session
    ensures ok ==> Holding(base, top, session, []) && base.chain == [top, session] && top.base == base
    ensures Roomy(base) ==> ok
  {
    assert base.chain[..1] == [top] && base.kinds[..0] == [];
    NothingWritten(base.parts, base.kinds);
    ok := OpenElement(base, top, session, SEQUENCE, 0, [top], [], [[SEQUENCE]]);
    if ok {
      SequenceOpen(base, top, session);
    }
  }

  lemma NothingWritten(parts: seq<seq<byte>>, kinds: seq<Kind>)
    requires parts == [[]] && kinds == []
    ensures parts[..0] + [Closed(parts, kinds, 0) + [SEQUENCE]] == [[SEQUENCE]]
    ensures AllFit(parts, kinds, 0) && Extent(parts, kinds, 0) == 0
  {
    var front := Closed(parts, kinds, 0) + [SEQUENCE];
    assert front == [SEQUENCE];
    assert parts[..0] + [front] == [front];
  }

  lemma SequenceOpen(base: Buffer, top: Cbb, session: Cbb)
    requires Writing(base, session, 0, [top], [], [[SEQUENCE]], [])
    ensures Holding(base, top, session, []) && base.chain == [top, session] && top.base == base
  {
    assert base.Link(0) && base.parts == [[SEQUENCE], []] && base.kinds == [Der];
  }

  /** All fields in order. */
  method EncodeFields(base: Buffer, top: Cbb, session: Cbb, s: Session, codec: CertCodec) returns (ok: bool)
    requires Typed(s) && s.version >= 0 && Holding(base, top, session, [])
    modifies base, base.chain`child, base.chain`offset, base.chain`pendingLenLen, base.chain`pendingIsAsn1, base.chain`base
    ensures ok ==> Encodable(codec, s) && Holding(base, top, session, Body(codec, s)) && OnlyNew(base)
    ensures Able(base, Body(codec, s)) && Encodable(codec, s) ==> ok
  {
    ghost var full := Body(codec, s);
    assert Done(full, full) == [] && EndsWith(full, full);
    ok := EncodeVersions(base, top, session, s.version, full, FromCipher(codec, s));
    if ok {
      ok := EncodeRest(base, top, session, s, codec, full);
    }
    assert Done(full, []) == full;
  }

  /** The fields behind the versions. */
  method EncodeRest(base: Buffer, top: Cbb, session: Cbb, s: Session, codec: CertCodec, ghost full: seq<byte>) returns (ok: bool)
    requires Typed(s) && s.version >= 0 && Ahead(base, top, session, full, FromCipher(codec, s))
    modifies base, base.chain`child, base.chain`offset, base.chain`pendingLenLen, base.chain`pendingIsAsn1, base.chain`base
    ensures ok ==> Encodable(codec, s) && Ahead(base, top, session, full, []) && OnlyNew(base)
    ensures Able(base, full) && Encodable(codec, s) ==> ok
  {
    ok := EncodeSecrets(base, top, session, s, codec, full);
    if ok {
      ok := EncodeOptional(base, top, session, s, codec, full);
    }
  }

  /** The optional fields and the session id context. */
  method EncodeOptional(base: Buffer, top: Cbb, session: Cbb, s: Session, codec: CertCodec, ghost full: seq<byte>) returns (ok: bool)
    requires Typed(s) && s.version >= 0 && Ahead(base, top, session, full, FromTime(codec, s))
    modifies base, base.chain`child, base.chain`offset, base.chain`pendingLenLen, base.chain`pendingIsAsn1, base.chain`base
    ensures ok ==> Encodable(codec, s) && Ahead(base, top, session, full, []) && OnlyNew(base)
    ensures Able(base, full) && Encodable(codec, s) ==> ok
  {
    ok := EncodeFront(base, top, session, s, codec, full);
    if ok {
      ok := EncodeRear(base, top, session, s, full);
    }
  }

  /** From the session id context on. */
  method EncodeRear(base: Buffer, top: Cbb, session: Cbb, s: Session, ghost full: seq<byte>) returns (ok: bool)
    requires Typed(s) && Ahead(base, top, session, full, FromContext(s))
    modifies base, base.chain`child, base.chain`offset, base.chain`pendingLenLen, base.chain`pendingIsAsn1, base.chain`base
    ensures ok ==> s.verifyResult >= 0 && Ahead(base, top, session, full, []) && OnlyNew(base)
    ensures Able(base, full) && s.verifyResult >= 0 ==> ok
  {
    ok := EncodeContext(base, top, session, s, full);
    if ok {
      ok := EncodeTail(base, top, session, s, full);
    }
  }

  /** Time, timeout and certificate. */
  method EncodeFront(base: Buffer, top: Cbb, session: Cbb, s: Session, codec: CertCodec, ghost full: seq<byte>) returns (ok: bool)
    requires Typed(s) && Ahead(base, top, session, full, FromTime(codec, s))
    modifies base, base.chain`child, base.chain`offset, base.chain`pendingLenLen, base.chain`pendingIsAsn1, base.chain`base
    ensures ok ==> s.time >= 0 && s.timeout >= 0 && (s.peer.Some? ==> codec.encode(s.peer.value) != [])
    ensures ok ==> Ahead(base, top, session, full, FromContext(s)) && OnlyNew(base)
    ensures Able(base, full) && s.time >= 0 && s.timeout >= 0 && (s.peer.Some? ==> codec.encode(s.peer.value) != []) ==> ok
  {
    ok := EncodeTimes(base, top, session, s, codec, full);
    if ok {
      ok := EncodePeer(base, top, session, s, codec, full);
    }
  }

  /** What CBB_finish makes of it. */
  lemma Finished(base: Buffer, top: Cbb, session: Cbb, body: seq<byte>)
    requires Holding(base, top, session, body)
    ensures Closed(base.parts, base.kinds, 0) == El(SEQUENCE, body)
    ensures AllFit(base.parts, base.kinds, 0) ==> |body| <= 0xffff_fffe
    ensures Able(base, body) ==> !Refused(base, base.parts, base.kinds, 0, 0)
  {
    if Able(base, body) {
      PartsFit(base.parts, base.kinds, 1);
    }
  }

  /** SSL_SESSION_encode; with `ticket` the session id is left empty. Given memory, exactly a session without
      negative numbers whose contents fit their length is encoded. */
  method Encode(s: Session, ticket: bool, codec: CertCodec, allocates: nat -> bool) returns (ok: bool, bytes: seq<byte>)
    requires Typed(s)
    ensures !ok ==> bytes == []
    ensures Ample(allocates) ==> var stored := if ticket then s.(sessionId := []) else s;
                                 (ok <==> Encodable(codec, stored) && |Body(codec, stored)| <= 0xffff_fffe)
    ensures ok ==> var stored := if ticket then s.(sessionId := []) else s;
                   Encodable(codec, stored) && bytes == Encoding(codec, stored) && |Body(codec, stored)| <= 0xffff_fffe
  {
    bytes := [];
    var stored := if ticket then s.(sessionId := []) else s;
    if stored.version < 0 {
      return false, [];
    }
    ok, bytes := EncodeSession(stored, codec, allocates);
  }

  /** The session as it is to be stored. */
  method EncodeSession(s: Session, codec: CertCodec, allocates: nat -> bool) returns (ok: bool, bytes: seq<byte>)
    requires Typed(s) && s.version >= 0
    ensures ok ==> Encodable(codec, s) && bytes == Encoding(codec, s) && |Body(codec, s)| <= 0xffff_fffe
    ensures !ok ==> bytes == []
    ensures Ample(allocates) && Encodable(codec, s) && |Body(codec, s)| <= 0xffff_fffe ==> ok
  {
    bytes := [];
    var top, session, base;
    ok, top, session, base := Begin(allocates);
    if !ok {
      return;
    }
    ok := EncodeFields(base, top, session, s, codec);
    if ok {
      ok, bytes := FinishSession(base, top, session, Body(codec, s));
    }
  }

  /** CBB_finish of a session written in full. */
  method FinishSession(base: Buffer, top: Cbb, session: Cbb, ghost body: seq<byte>) returns (ok: bool, bytes: seq<byte>)
    requires Holding(base, top, session, body) && top.isTopLevel
    modifies base, base.chain`child, base.chain`offset, base.chain`pendingLenLen, base.chain`pendingIsAsn1, base.chain`base, top
    ensures ok ==> bytes == El(SEQUENCE, body) && |body| <= 0xffff_fffe
    ensures !ok ==> bytes == []
    ensures Able(base, body) ==> ok
  {
    assert base.Link(0);
    Finished(base, top, session, body);
    ok, bytes := Finish(top, true, 0);
  }

  ghost predicate Storable(codec: CertCodec, s: Session)
    requires Typed(s) && s.version >= 0
  {
    |Body(codec, s)| <= 0xffff_fffe && |Encoding(codec, s)| <= 0x7fff_ffff
  }

  /** i2d_SSL_SESSION: at most INT_MAX bytes. */
  method Store(s: Session, codec: CertCodec, allocates: nat -> bool) returns (ok: bool, bytes: seq<byte>)
    requires Typed(s)
    ensures Ample(allocates) ==> (ok <==> (s.cipher.Some? || s.cipherId != 0) && Encodable(codec, s) && Storable(codec, s))
    ensures ok ==> (s.cipher.Some? || s.cipherId != 0) && |bytes| <= 0x7fff_ffff
    ensures ok ==> Encodable(codec, s) && bytes == Encoding(codec, s)
  {
    if s.cipher.None? && s.cipherId == 0 {
      return false, [];
    }
    ok, bytes := Encode(s, false, codec, allocates);
    if |bytes| > 0x7fff_ffff {
      return false, [];
    }
  }

  /** What was stored is loaded into a fresh session with every field restored, whatever follows in the input. */
  method StoreAndLoad(s: Session, codec: CertCodec, into: Session, now: int, rest: seq<byte>, allocates: nat -> bool)
      returns (stored: bool, r: Option<(Session, seq<byte>)>)
    requires Typed(s) && Inverts(codec, s.peer)
    ensures stored ==> r == Some((Restored(s, into, now), rest))
    ensures Ample(allocates) && (s.cipher.Some? || s.cipherId != 0) && Encodable(codec, s) && Storable(codec, s) ==> stored
  {
    var bytes;
    stored, bytes := Store(s, codec, allocates);
    r := None;
    if stored {
      TypedAccepted(s);
      RoundTrip(codec, s, into, now, rest);
      r := Decode(bytes + rest, into, 0, codec, now);
    }
  }
}
