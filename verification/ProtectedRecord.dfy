/** Records under a CBC cipher and a MAC, ssl/tls12_record_layer.c: sealing with
    explicit IV, MAC and padding, and opening, which strips the padding, slices out
    the MAC and computes it again. Encryption itself is a parameter. Sections
    6.2.3.1 and 6.2.3.2 of RFC 5246. */
module ProtectedRecord {
  import Asn1
  import opened Hashing
  import opened CbcRecord
  import opened RecordMac

  /** One direction of a connection and the record at hand. */
  datatype Context<!S> = Context(
    h: Hash<S>,
    key: seq<bv8>,
    eivLen: nat,
    blockSize: nat,
    version: nat,
    seqNum: seq<bv8>,
    contentType: bv8)

  /** EVP limits: at most 16 bytes of IV, blocks of 2 to 32 bytes, MACs of an even size up to 64. */
  ghost predicate Usable<S(!new)>(x: Context<S>) {
    && |x.seqNum| == 8 && x.eivLen <= 16 && 1 < x.blockSize <= 32 && |x.key| <= 128
    && 0 < x.h.mdSize <= 64 && x.h.mdSize % 2 == 0 && forall s: S :: |x.h.finalRaw(s)| >= x.h.mdSize
  }

  /** tls12_record_layer_pseudo_header */
  function PseudoHeader<S>(x: Context<S>, len: nat): (header: seq<bv8>)
    requires |x.seqNum| == 8
    ensures |header| == 13
  {
    x.seqNum + [x.contentType] + BigEndian(x.version, 2) + BigEndian(len, 2)
  }

  lemma TwoBytes(n: nat)
    requires n < 0x1_0000
    ensures |BigEndian(n, 2)| == 2 && 256 * (BigEndian(n, 2)[0] as int) + BigEndian(n, 2)[1] as int == n
  {
    var high := ByteOf(n / 256);
    var low := ByteOf(n % 256);
    assert BigEndian(n / 256, 1) == BigEndian(n / 256 / 256, 0) + [(n / 256 % 256) as bv8];
    assert BigEndian(n, 2) == BigEndian(n / 256, 1) + [(n % 256) as bv8];
  }

  /** The layout by position: sequence number, content type, version, length. */
  lemma HeaderByPosition<S>(x: Context<S>, len: nat)
    requires |x.seqNum| == 8 && x.version < 0x1_0000 && len < 0x1_0000
    ensures var header := PseudoHeader(x, len);
            && header[..8] == x.seqNum && header[8] == x.contentType
            && 256 * (header[9] as int) + header[10] as int == x.version
            && 256 * (header[11] as int) + header[12] as int == len
  {
    TwoBytes(x.version);
    TwoBytes(len);
  }

  /** What is MACed determines everything that went into it. */
  lemma MacInputDetermines<S>(x: Context<S>, c: seq<bv8>, y: Context<S>, d: seq<bv8>)
    requires |x.seqNum| == |y.seqNum| == 8 && x.version < 0x1_0000 && y.version < 0x1_0000 && |c| < 0x1_0000 && |d| < 0x1_0000
    requires PseudoHeader(x, |c|) + c == PseudoHeader(y, |d|) + d
    ensures x.seqNum == y.seqNum && x.contentType == y.contentType && x.version == y.version && c == d
  {
    var a, b := PseudoHeader(x, |c|), PseudoHeader(y, |d|);
    HeaderByPosition(x, |c|);
    HeaderByPosition(y, |d|);
    assert a == (a + c)[..13] && b == (b + d)[..13];
    assert c == (a + c)[13..] && d == (b + d)[13..];
  }

  /** Equal headers belong to the same sequence number, type, version and length. */
  lemma HeaderDetermines<S>(x: Context<S>, len: nat, y: Context<S>, len': nat)
    requires |x.seqNum| == |y.seqNum| == 8 && x.version < 0x1_0000 && y.version < 0x1_0000 && len < 0x1_0000 && len' < 0x1_0000
    requires PseudoHeader(x, len) == PseudoHeader(y, len')
    ensures x.seqNum == y.seqNum && x.contentType == y.contentType && x.version == y.version && len == len'
  {
    HeaderByPosition(x, len);
    HeaderByPosition(y, len');
  }

  /** The MAC of a record with this content. */
  function Mac<S(!new)>(x: Context<S>, content: seq<bv8>): seq<bv8>
    requires |x.seqNum| == 8 && forall s: S :: |x.h.finalRaw(s)| >= x.h.mdSize
  {
    Hmac(x.h, UsedKey(x.h, x.key), PseudoHeader(x, |content|) + content)
  }

  lemma MacSize<S(!new)>(x: Context<S>, content: seq<bv8>)
    requires |x.seqNum| == 8 && forall s: S :: |x.h.finalRaw(s)| >= x.h.mdSize
    ensures |Mac(x, content)| == x.h.mdSize
  {
  }

  /** What opening a record comes to; an alert is named where the source names one. */
  datatype Opened = Content(bytes: seq<bv8>) | Refused(alert: nat) | Failed

  const BAD_RECORD_MAC := 20
  const RECORD_OVERFLOW := 22

  // ---------- opening ----------

  /** The public checks on a fragment, before decryption. */
  function Admitted<S>(x: Context<S>, len: nat): Asn1.Option<Opened>
    requires x.blockSize > 0
  {
    if len < x.eivLen + x.h.mdSize + 1 then Asn1.Some(Refused(20))
    else if len > 16704 then Asn1.Some(Refused(22))
    else if len % x.blockSize != 0 then Asn1.Some(Refused(20))
    else Asn1.None
  }

  /** What is left of a plaintext without its padding: p + 1 bytes go if the padding is good, none otherwise. */
  ghost function Stripped(plain: seq<bv8>, macSize: nat): (rest: seq<bv8>)
    requires 1 + macSize <= |plain|
    ensures macSize <= |rest| <= |plain|
  {
    if GoodPadding(plain, |plain|, macSize) then plain[..|plain| - 1 - plain[|plain| - 1] as int] else plain
  }

  /** The checks on content and MAC once the padding is gone. */
  function Checked<S(!new)>(x: Context<S>, content: seq<bv8>, mac: seq<bv8>): Opened
    requires |x.seqNum| == 8 && forall s: S :: |x.h.finalRaw(s)| >= x.h.mdSize
  {
    if !KnownDigest(x.h) then Failed
    else if mac != Mac(x, content) then Refused(20)
    else if |content| > 16384 + x.h.mdSize then Refused(20)
    else if |content| > 16384 then Refused(22)
    else Content(content)
  }

  /** Splits what is left of the plaintext in front of the MAC. */
  ghost function CheckedRest<S(!new)>(x: Context<S>, rest: seq<bv8>): Opened
    requires |x.seqNum| == 8 && (forall s: S :: |x.h.finalRaw(s)| >= x.h.mdSize) && x.h.mdSize <= |rest|
  {
    Checked(x, rest[..|rest| - x.h.mdSize], rest[|rest| - x.h.mdSize..])
  }

  /** Removing the padding, whose verdict the caller ignores, and slicing out the MAC; `input` is what was MACed and padding. */
  method Strip(plain: seq<bv8>, eivLen: nat, macSize: nat) returns (input: seq<bv8>, length: nat, mac: seq<bv8>)
    requires 0 < macSize <= 64 && macSize % 2 == 0 && eivLen <= 16 && eivLen + macSize + 1 <= |plain| <= 16704
    ensures input == plain[eivLen..] && length + macSize <= |input| <= length + macSize + 256
    ensures Stripped(input, macSize) == input[..length + macSize] && mac == input[length..length + macSize]
  {
    var rec := new Record(plain);
    var _ := rec.RemovePadding(eivLen, macSize);
    mac := CopyMac(rec.data, rec.length, macSize, rec.length + rec.paddingLength);
    rec.length := rec.length - macSize;
    input, length := rec.input, rec.length;
  }

  /** The decrypted part of tls12_record_layer_open_record_protected_cipher. */
  method OpenPlain<S(!new)>(x: Context<S>, plain: seq<bv8>) returns (r: Opened)
    requires Usable(x) && x.eivLen + x.h.mdSize + 1 <= |plain| <= 16704
    ensures r == CheckedRest(x, Stripped(plain[x.eivLen..], x.h.mdSize))
  {
    var input, length, mac := Strip(plain, x.eivLen, x.h.mdSize);
    r := CompareMac(x, input, length, mac);
    SplitRest(x, input, length, mac);
  }

  lemma SplitRest<S(!new)>(x: Context<S>, input: seq<bv8>, length: nat, mac: seq<bv8>)
    requires Usable(x) && length + x.h.mdSize <= |input| && mac == input[length..length + x.h.mdSize]
    ensures CheckedRest(x, input[..length + x.h.mdSize]) == Checked(x, input[..length], mac)
  {
    var rest := input[..length + x.h.mdSize];
    assert rest[..length] == input[..length] && rest[length..] == mac;
  }

  /** The MAC is computed again and compared. */
  method CompareMac<S(!new)>(x: Context<S>, input: seq<bv8>, length: nat, mac: seq<bv8>) returns (r: Opened)
    requires Usable(x) && length + x.h.mdSize <= |input| <= length + x.h.mdSize + 256 && |input| <= 16704
    ensures r == Checked(x, input[..length], mac)
  {
    if !KnownDigest(x.h) {
      return Failed;
    }
    var outMac := DigestRecord(x.h, PseudoHeader(x, length), input, length + x.h.mdSize, x.key);
    if mac != outMac {
      return Refused(BAD_RECORD_MAC);
    }
    if length > 16384 + x.h.mdSize {
      return Refused(BAD_RECORD_MAC);
    }
    if length > 16384 {
      return Refused(RECORD_OVERFLOW);
    }
    r := Content(input[..length]);
  }

  /** tls12_record_layer_open_record_protected_cipher under a CBC cipher. */
  method Open<S(!new)>(x: Context<S>, decrypt: seq<bv8> -> Asn1.Option<seq<bv8>>, fragment: seq<bv8>) returns (r: Opened)
    requires Usable(x) && (decrypt(fragment).Some? ==> |decrypt(fragment).value| == |fragment|)
    ensures Admitted(x, |fragment|).Some? ==> r == Admitted(x, |fragment|).value
    ensures Admitted(x, |fragment|).None? && decrypt(fragment).None? ==> r == Failed
    ensures Admitted(x, |fragment|).None? && decrypt(fragment).Some? ==>
              r == CheckedRest(x, Stripped(decrypt(fragment).value[x.eivLen..], x.h.mdSize))
    ensures forall c :: r == Content(c) <==>
              Admitted(x, |fragment|).None? && decrypt(fragment).Some? && KnownDigest(x.h) && |c| <= 16384
              && Authentic(x, c, decrypt(fragment).value[x.eivLen..])
  {
    if |fragment| < x.eivLen + x.h.mdSize + 1 {
      return Refused(BAD_RECORD_MAC);
    }
    if |fragment| > 16704 {
      return Refused(RECORD_OVERFLOW);
    }
    if |fragment| % x.blockSize != 0 {
      return Refused(BAD_RECORD_MAC);
    }
    var plain := decrypt(fragment);
    if plain.None? {
      return Failed;
    }
    r := OpenPlain(x, plain.value);
    forall c
      ensures r == Content(c) <==> KnownDigest(x.h) && |c| <= 16384 && Authentic(x, c, plain.value[x.eivLen..])
    {
      AcceptedForms(x, c, plain.value[x.eivLen..]);
    }
  }

  // ---------- which plaintexts are accepted ----------

  /** `n` bytes of padding, which all give the number of those before the last. */
  function Padding(n: nat): (s: seq<bv8>)
    requires 1 <= n <= 256
    ensures |s| == n
  {
    seq(n, i => (n - 1) as bv8)
  }

  /** The plaintext is content, MAC and padding; or content and MAC, when their last bytes do not look like padding. */
  ghost predicate Authentic<S(!new)>(x: Context<S>, c: seq<bv8>, plain: seq<bv8>)
    requires |x.seqNum| == 8 && forall s: S :: |x.h.finalRaw(s)| >= x.h.mdSize
  {
    (exists n :: 1 <= n <= 256 && plain == c + Mac(x, c) + Padding(n))
    || (plain == c + Mac(x, c) && plain != [] && !GoodPadding(plain, |plain|, x.h.mdSize))
  }

  /** Good padding is exactly padding behind something at least as long as a MAC. */
  lemma PaddingIsStripped(rest: seq<bv8>, n: nat, macSize: nat)
    requires macSize <= |rest| && 1 <= n <= 256
    ensures GoodPadding(rest + Padding(n), |rest| + n, macSize)
    ensures Stripped(rest + Padding(n), macSize) == rest
  {
    var b := ByteOf(n - 1);
    EqualBytesAreStripped(rest, Padding(n), b, macSize);
  }

  /** A number below 256 as a byte; each step is one bit-vector increment. */
  lemma {:induction false} ByteOf(n: nat) returns (b: bv8)
    requires n < 256
    ensures b as int == n && n as bv8 == b
  {
    if n == 0 {
      b := 0;
    } else {
      b := ByteOf(n - 1);
      b := NextByte(b);
      SameByte(b, n);
    }
  }

  lemma NextByte(b: bv8) returns (c: bv8)
    requires b < 255
    ensures c as int == b as int + 1
  {
    c := b + 1;
  }

  lemma SameByte(b: bv8, n: nat)
    requires b as int == n
    ensures n as bv8 == b
  {
    assert (b as int) as bv8 == b;
  }

  lemma EqualBytesAreStripped(rest: seq<bv8>, padding: seq<bv8>, b: bv8, macSize: nat)
    requires macSize <= |rest| && |padding| == b as int + 1 && forall i :: 0 <= i < |padding| ==> padding[i] == b
    ensures GoodPadding(rest + padding, |rest| + |padding|, macSize)
    ensures Stripped(rest + padding, macSize) == rest
  {
    var plain := rest + padding;
    assert plain[|plain| - 1] == b;
  }

  lemma GoodPaddingIsPadding(plain: seq<bv8>, macSize: nat)
    requires 1 + macSize <= |plain| && GoodPadding(plain, |plain|, macSize)
    ensures plain == Stripped(plain, macSize) + Padding(plain[|plain| - 1] as int + 1)
  {
  }

  /** Both ways: what is left is content and MAC. */
  lemma AuthenticIffStripped<S(!new)>(x: Context<S>, c: seq<bv8>, plain: seq<bv8>)
    requires Usable(x) && 1 + x.h.mdSize <= |plain|
    ensures Authentic(x, c, plain) <==> Stripped(plain, x.h.mdSize) == c + Mac(x, c)
  {
    MacSize(x, c);
    var sent := c + Mac(x, c);
    if exists n :: 1 <= n <= 256 && plain == sent + Padding(n) {
      var n :| 1 <= n <= 256 && plain == sent + Padding(n);
      PaddingIsStripped(sent, n, x.h.mdSize);
    }
    if Stripped(plain, x.h.mdSize) == sent && GoodPadding(plain, |plain|, x.h.mdSize) {
      GoodPaddingIsPadding(plain, x.h.mdSize);
    }
  }

  /** A plaintext is accepted with content `c` exactly when it is authentic for `c`. */
  lemma AcceptedForms<S(!new)>(x: Context<S>, c: seq<bv8>, plain: seq<bv8>)
    requires Usable(x) && 1 + x.h.mdSize <= |plain|
    ensures CheckedRest(x, Stripped(plain, x.h.mdSize)) == Content(c)
            <==> KnownDigest(x.h) && |c| <= 16384 && Authentic(x, c, plain)
  {
    MacSize(x, c);
    AuthenticIffStripped(x, c, plain);
    var rest := Stripped(plain, x.h.mdSize);
    var n := |rest| - x.h.mdSize;
    assert rest == rest[..n] + rest[n..];
    if rest == c + Mac(x, c) {
      assert rest[..n] == c && rest[n..] == Mac(x, c);
    }
  }

  /** A record without any padding is accepted when its last byte cannot be a padding length: the padding check has no say. */
  lemma UnpaddedIsAccepted<S(!new)>(x: Context<S>, c: seq<bv8>)
    requires Usable(x) && KnownDigest(x.h) && 1 <= |c| <= 16384
    requires Mac(x, c) != [] && Mac(x, c)[|Mac(x, c)| - 1] as int >= |c|
    ensures CheckedRest(x, Stripped(c + Mac(x, c), x.h.mdSize)) == Content(c)
  {
    MacSize(x, c);
    var plain := c + Mac(x, c);
    assert plain[|plain| - 1] == Mac(x, c)[|Mac(x, c)| - 1];
    AcceptedForms(x, c, plain);
  }

  // ---------- sealing ----------

  /** How many bytes of padding fill the last block. */
  function PadLength(len: nat, blockSize: nat): (n: nat)
    requires 1 < blockSize
    ensures 1 <= n <= blockSize
  {
    blockSize - len % blockSize
  }

  /** The plaintext of a record: explicit IV, content, MAC and padding. */
  function Plaintext<S(!new)>(x: Context<S>, eiv: seq<bv8>, content: seq<bv8>): seq<bv8>
    requires |x.seqNum| == 8 && (forall s: S :: |x.h.finalRaw(s)| >= x.h.mdSize) && |x.key| <= x.h.BlockSize() && 1 < x.blockSize <= 32
  {
    Framed(eiv, content, Hmac(x.h, x.key, PseudoHeader(x, |content|) + content), x.blockSize)
  }

  function Framed(eiv: seq<bv8>, content: seq<bv8>, mac: seq<bv8>, blockSize: nat): seq<bv8>
    requires 1 < blockSize <= 32
  {
    var front := eiv + content + mac;
    front + Padding(PadLength(|front|, blockSize))
  }

  lemma FramedFacts(eiv: seq<bv8>, content: seq<bv8>, mac: seq<bv8>, blockSize: nat) returns (n: nat)
    requires 1 < blockSize <= 32
    ensures var plain := Framed(eiv, content, mac, blockSize);
            && |plain| % blockSize == 0 && |eiv| + |mac| + 1 <= |plain|
            && 1 <= n <= 256 && plain[|eiv|..] == content + mac + Padding(n)
  {
    var front := eiv + content + mac;
    PaddedToBlock(|front|, blockSize);
    n := PadLength(|front|, blockSize);
  }

  /** tls12_record_layer_seal_record_protected_cipher under a CBC cipher; `eiv` is random. */
  function Seal<S(!new)>(x: Context<S>, encrypt: seq<bv8> -> Asn1.Option<seq<bv8>>, eiv: seq<bv8>, content: seq<bv8>): Asn1.Option<seq<bv8>>
    requires |x.seqNum| == 8 && (forall s: S :: |x.h.finalRaw(s)| >= x.h.mdSize) && |x.key| <= x.h.BlockSize() && 1 < x.blockSize <= 32
  {
    var plain := Plaintext(x, eiv, content);
    if |plain| > 16704 then Asn1.None else encrypt(plain)
  }

  lemma PaddedToBlock(n: nat, b: nat)
    requires 1 < b
    ensures (n + PadLength(n, b)) % b == 0
  {
    var q := n / b;
    assert n + PadLength(n, b) == b * (q + 1) by { assert b * (q + 1) == b * q + b; }
    ModUnique(n + PadLength(n, b), b, q + 1, 0);
  }

  /** A sealed plaintext fills whole blocks and is authentic. */
  lemma PlaintextAuthentic<S(!new)>(x: Context<S>, eiv: seq<bv8>, content: seq<bv8>)
    requires Usable(x) && |x.key| <= x.h.BlockSize() && |eiv| == x.eivLen
    ensures var plain := Plaintext(x, eiv, content);
            && x.eivLen + x.h.mdSize + 1 <= |plain| && |plain| % x.blockSize == 0
            && Authentic(x, content, plain[x.eivLen..])
  {
    MacSize(x, content);
    var n := FramedFacts(eiv, content, Mac(x, content), x.blockSize);
  }

  /** A sealed record passes the public checks and opens to its content. */
  method SealAndOpen<S(!new)>(x: Context<S>, encrypt: seq<bv8> -> Asn1.Option<seq<bv8>>, decrypt: seq<bv8> -> Asn1.Option<seq<bv8>>,
                              eiv: seq<bv8>, content: seq<bv8>) returns (fragment: Asn1.Option<seq<bv8>>, r: Opened)
    requires Usable(x) && KnownDigest(x.h) && |x.key| <= x.h.BlockSize() && |eiv| == x.eivLen
    requires forall plain :: encrypt(plain).Some? ==> |encrypt(plain).value| == |plain| && decrypt(encrypt(plain).value) == Asn1.Some(plain)
    ensures fragment == Seal(x, encrypt, eiv, content)
    ensures fragment.Some? && |content| <= 16384 ==> r == Content(content)
  {
    fragment := Seal(x, encrypt, eiv, content);
    if fragment.None? {
      return fragment, Failed;
    }
    PlaintextAuthentic(x, eiv, content);
    assert decrypt(fragment.value) == Asn1.Some(Plaintext(x, eiv, content));
    r := Open(x, decrypt, fragment.value);
  }
}
