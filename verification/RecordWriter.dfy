/** Writing application data through a BIO that may take any part of it or none:
    ssl3_write_bytes, do_ssl3_write and ssl3_write_pending of ssl/ssl_pkt.c. */
module RecordWriter {
  import opened Asn1

  const APPLICATION_DATA: nat := 23

  /** A sealed record has at least its header. */
  type RecordBytes = s: seq<byte> | s != [] witness [0]

  /** A record the record layer has sealed. */
  datatype Sealed = Sealed(kind: nat, plain: seq<byte>, cipher: seq<byte>)

  /** The sealed records back to back. */
  function Ciphers(rs: seq<Sealed>): seq<byte> {
    if rs == [] then [] else Ciphers(rs[..|rs| - 1]) + rs[|rs| - 1].cipher
  }

  /** The bytes that went into them. */
  function Plains(rs: seq<Sealed>): seq<byte> {
    if rs == [] then [] else Plains(rs[..|rs| - 1]) + rs[|rs| - 1].plain
  }

  lemma LogGrows(log: seq<Sealed>, start: nat, r: Sealed)
    requires start <= |log|
    ensures Ciphers(log + [r]) == Ciphers(log) + r.cipher
    ensures Plains((log + [r])[start..]) == Plains(log[start..]) + r.plain
  {
    assert (log + [r])[..|log|] == log;
    var tail := log[start..];
    TailGrows(log, start, r);
    assert (tail + [r])[..|tail|] == tail;
  }

  /** Records of one content type. The first is empty if one is due, no other is, and all others are as long as the
      limit allows; only the last may be short, at the end of the data. */
  predicate Cut(rs: seq<Sealed>, kind: nat, limit: nat, due: bool, atEnd: bool) {
    && (forall i :: 0 <= i < |rs| ==> rs[i].kind == kind)
    && (due && rs != [] ==> rs[0].plain == [])
    && forall i :: (if due then 1 else 0) <= i < |rs| ==>
         0 < |rs[i].plain| <= limit && (|rs[i].plain| == limit || (atEnd && i == |rs| - 1))
  }

  /** What the next record may hold. */
  predicate Fits(plain: seq<byte>, empty: bool, limit: nat, atEnd: bool) {
    if empty then plain == [] && !atEnd else 0 < |plain| <= limit && (|plain| == limit || atEnd)
  }

  /** A transport that always takes something. */
  ghost predicate NeverBlocks(answers: nat -> int) {
    forall n :: answers(n) > 0
  }

  /** The transport: `answers(n)` decides what the n-th write returns. */
  class Bio {
    const answers: nat -> int
    var calls: nat
    var out: seq<byte>

    constructor (answers: nat -> int)
      ensures this.answers == answers && out == []
    {
      this.answers, calls, out := answers, 0, [];
    }

    /** BIO_write: all of it, the first part of it, or nothing. */
    method Write(data: seq<byte>) returns (i: int)
      modifies this
      ensures i <= |data| && out == old(out) + data[..if i > 0 then i else 0]
      ensures NeverBlocks(answers) && data != [] ==> i > 0
    {
      i := answers(calls);
      if i > |data| {
        i := |data|;
      }
      calls := calls + 1;
      if i > 0 {
        out := out + data[..i];
      }
    }
  }

  /** A pointer into a caller's buffer. */
  datatype Pointer = Pointer(base: nat, offset: nat)

  class Writer {
    const bio: Bio
    /** Seals the n-th record. */
    const seal: (nat, nat, seq<byte>) -> RecordBytes
    const maxSendFragment: nat
    const align: nat
    /** SSL_MODE_ENABLE_PARTIAL_WRITE, SSL_MODE_ACCEPT_MOVING_WRITE_BUFFER */
    const partialWrite: bool
    const movingBuffer: bool
    const needEmptyFragments: bool
    var emptyFragmentDone: bool
    var wnum: nat
    /** The write buffer: `left` bytes from `offset` have yet to go. */
    var wbuf: seq<byte>
    var offset: nat
    var left: nat
    var wpendTot: nat
    var wpendBuf: Pointer
    var wpendType: nat
    var wpendRet: nat
    /** Everything sealed so far. */
    var sealed: seq<Sealed>

    /** What reached the transport and what waits in the buffer are the sealed records, nothing else. */
    ghost predicate Valid()
      reads this`sealed, this`wbuf, this`offset, this`left, bio`out
    {
      maxSendFragment > 0
      && offset + left <= |wbuf| && bio.out + wbuf[offset..offset + left] == Ciphers(sealed)
    }

    constructor (bio: Bio, seal: (nat, nat, seq<byte>) -> RecordBytes, maxSendFragment: nat, align: nat,
                 partialWrite: bool, movingBuffer: bool, needEmptyFragments: bool)
      requires bio.out == [] && maxSendFragment > 0
      ensures Valid() && this.bio == bio && this.partialWrite == partialWrite
      ensures sealed == [] && wnum == 0 && left == 0
    {
      this.bio, this.seal, this.maxSendFragment, this.align := bio, seal, maxSendFragment, align;
      this.partialWrite, this.movingBuffer, this.needEmptyFragments := partialWrite, movingBuffer, needEmptyFragments;
      emptyFragmentDone, wnum, wbuf, offset, left := false, 0, [], 0, 0;
      wpendTot, wpendBuf, wpendType, wpendRet := 0, Pointer(0, 0), 0, 0;
      sealed := [];
    }

    /** An empty record has to come before application data. */
    ghost predicate EmptyDue(kind: nat)
      reads this`emptyFragmentDone
    {
      needEmptyFragments && !emptyFragmentDone && kind == 23
    }

    /** If one was due at `before`, it is still due exactly while nothing was sealed since. */
    ghost predicate Tracked(kind: nat, before: seq<Sealed>, due: bool)
      reads this`emptyFragmentDone, this`sealed
    {
      EmptyDue(kind) <==> due && |sealed| == |before|
    }

    /** The write buffer is being filled behind its alignment: since `before`, records of `plain` were sealed. */
    ghost predicate Filling(kind: nat, before: seq<Sealed>, plain: seq<byte>, due: bool, atEnd: bool)
      reads this`sealed, this`wbuf, bio`out
    {
      before <= sealed && Cut(sealed[|before|..], kind, maxSendFragment, due, atEnd) && Plains(sealed[|before|..]) == plain
      && align <= |wbuf| && bio.out + wbuf[align..] == Ciphers(sealed)
    }

    /** tls12_record_layer_seal_record into the write buffer. */
    method Seal(kind: nat, data: seq<byte>, ghost before: seq<Sealed>, ghost plain: seq<byte>, ghost due: bool, ghost atEnd: bool)
      requires Filling(kind, before, plain, due, false) && Fits(data, due && |sealed| == |before|, maxSendFragment, atEnd)
      modifies this`wbuf, this`sealed
      ensures Filling(kind, before, plain + data, due, atEnd) && |wbuf| > |old(wbuf)|
      ensures sealed == old(sealed) + [Sealed(kind, data, seal(|old(sealed)|, kind, data))]
    {
      var cipher := seal(|sealed|, kind, data);
      ghost var log, was := sealed, wbuf;
      wbuf := wbuf + cipher;
      sealed := sealed + [Sealed(kind, data, cipher)];
      SealedNext(log, before, Sealed(kind, data, cipher), maxSendFragment, due, atEnd);
      BufferNext(bio.out, was, cipher, align);
    }

    /** `tot` bytes of the buffer are behind us, and of the rest exactly the pending record is sealed. */
    ghost predicate Progress(kind: nat, base: nat, data: seq<byte>, before: seq<Sealed>, tot: nat, due: bool)
      reads this`sealed, this`left, this`wpendTot, this`wpendBuf, this`wpendType, this`wpendRet
    {
      before <= sealed && tot <= |data|
      && (left == 0 ==> Handed(data, before, tot, kind, due))
      && (left > 0 ==> wpendTot == (if |data| - tot > maxSendFragment then maxSendFragment else |data| - tot) && wpendTot > 0
                       && wpendRet == wpendTot && wpendBuf == Pointer(base, tot) && wpendType == kind
                       && tot + wpendTot <= |data| && Handed(data, before, tot + wpendTot, kind, due))
    }

    /** Since `before` exactly the first `n` bytes of the data were sealed. */
    ghost predicate Handed(data: seq<byte>, before: seq<Sealed>, n: nat, kind: nat, due: bool)
      requires before <= sealed && n <= |data|
      reads this`sealed
    {
      Cut(sealed[|before|..], kind, maxSendFragment, due, n == |data|) && Plains(sealed[|before|..]) == data[..n]
    }

    /** ssl3_write_pending */
    method WritePending(kind: nat, buf: Pointer, len: nat) returns (i: int)
      requires Valid() && left > 0 && wpendRet > 0
      modifies this`offset, this`left, bio
      ensures Valid()
      ensures i > 0 ==> left == 0 && i == wpendRet
      ensures i <= 0 ==> left > 0
      ensures wpendTot > len || (wpendBuf != buf && !movingBuffer) || wpendType != kind ==> i == -1 && bio.out == old(bio.out)
      ensures NeverBlocks(bio.answers) && wpendTot <= len && wpendBuf == buf && wpendType == kind ==> i > 0
    {
      if wpendTot > len || (wpendBuf != buf && !movingBuffer) || wpendType != kind {
        return -1;
      }
      while true
        invariant Valid() && left > 0
        decreases left
      {
        var before := left;
        i := Push();
        if i == before {
          return wpendRet;
        } else if i <= 0 {
          return i;
        }
      }
    }

    /** One BIO_write of what is left; what was taken moves from the buffer to the transport. */
    method Push() returns (i: int)
      requires Valid()
      modifies this`offset, this`left, bio
      ensures Valid() && i <= old(left) && left == old(left) - if i > 0 then i else 0
      ensures NeverBlocks(bio.answers) && old(left) > 0 ==> i > 0
    {
      ghost var out := bio.out;
      i := bio.Write(wbuf[offset..offset + left]);
      var taken := if i > 0 then i else 0;
      Advance(out, wbuf, offset, left, taken, Ciphers(sealed));
      offset := offset + taken;
      left := left - taken;
    }

    /** A new record, after an empty one where the cipher's IV is known: nothing was pending before. */
    method SealChunk(kind: nat, base: nat, data: seq<byte>, tot: nat, len: nat, ghost before: seq<Sealed>, ghost due: bool)
      requires Valid() && Progress(kind, base, data, before, tot, due) && Tracked(kind, before, due) && left == 0
      requires len == (if |data| - tot > maxSendFragment then maxSendFragment else |data| - tot) && len > 0
      modifies this`wbuf, this`offset, this`left, this`sealed, this`emptyFragmentDone
      modifies this`wpendTot, this`wpendBuf, this`wpendType, this`wpendRet
      ensures Valid() && Progress(kind, base, data, before, tot, due) && Tracked(kind, before, due) && left > 0
    {
      assert wbuf[offset..offset + left] == [] && bio.out + [] == bio.out;
      FillBuffer(kind, data[tot..tot + len], before, data[..tot], due, tot + len == |data|);
      assert data[..tot] + data[tot..tot + len] == data[..tot + len];
      left := |wbuf| - align;
      wpendTot, wpendBuf, wpendType, wpendRet := len, Pointer(base, tot), kind, len;
      assert wbuf[offset..offset + left] == wbuf[align..];
    }

    /** The records of one chunk in the write buffer. */
    method FillBuffer(kind: nat, chunk: seq<byte>, ghost before: seq<Sealed>, ghost plain: seq<byte>, ghost due: bool, ghost atEnd: bool)
      requires before <= sealed && Cut(sealed[|before|..], kind, maxSendFragment, due, false) && Plains(sealed[|before|..]) == plain
      requires Tracked(kind, before, due) && bio.out == Ciphers(sealed) && Fits(chunk, false, maxSendFragment, atEnd)
      modifies this`wbuf, this`offset, this`sealed, this`emptyFragmentDone
      ensures Filling(kind, before, plain + chunk, due, atEnd) && Tracked(kind, before, due) && |wbuf| > align && offset == align
    {
      wbuf, offset := Zeros(align), align;
      assert wbuf[align..] == [] && bio.out + [] == bio.out;
      SealEmpty(kind, before, plain, due);
      Seal(kind, chunk, before, plain, due, atEnd);
    }

    /** The empty record before the first chunk of application data, exactly where it is due. */
    method SealEmpty(kind: nat, ghost before: seq<Sealed>, ghost plain: seq<byte>, ghost due: bool)
      requires Filling(kind, before, plain, due, false) && Tracked(kind, before, due)
      modifies this`wbuf, this`sealed, this`emptyFragmentDone
      ensures Filling(kind, before, plain, due, false) && !EmptyDue(kind)
      ensures due ==> |sealed| > |before|
      ensures if old(EmptyDue(kind)) then |sealed| == |old(sealed)| + 1 && emptyFragmentDone
              else sealed == old(sealed) && emptyFragmentDone == old(emptyFragmentDone)
    {
      if needEmptyFragments && !emptyFragmentDone && kind == APPLICATION_DATA {
        Seal(kind, [], before, plain, due, false);
        assert plain + [] == plain;
        emptyFragmentDone := true;
      }
    }

    /** do_ssl3_write of the next chunk: it goes out whole, or is sealed and waits; it is never sealed twice. */
    method DoWrite(kind: nat, base: nat, data: seq<byte>, tot: nat, len: nat, ghost before: seq<Sealed>, ghost due: bool) returns (i: int)
      requires Valid() && Progress(kind, base, data, before, tot, due) && Tracked(kind, before, due)
      requires len == if |data| - tot > maxSendFragment then maxSendFragment else |data| - tot
      modifies this`wbuf, this`offset, this`left, this`sealed, this`emptyFragmentDone, bio
      modifies this`wpendTot, this`wpendBuf, this`wpendType, this`wpendRet
      ensures Valid() && Tracked(kind, before, due)
      ensures i > 0 ==> i == len && left == 0 && Progress(kind, base, data, before, tot + len, due)
      ensures i <= 0 ==> Progress(kind, base, data, before, tot, due)
      ensures NeverBlocks(bio.answers) && len > 0 ==> i > 0
    {
      if left != 0 {
        i := WritePending(kind, Pointer(base, tot), len);
        return;
      }
      if len == 0 {
        return 0;
      }
      SealChunk(kind, base, data, tot, len, before, due);
      i := WritePending(kind, Pointer(base, tot), len);
    }

    /** ssl3_write_bytes after the handshake with no alert pending. However the transport behaves, the sealed
        records hold each byte of the buffer once and in order, and a retry takes up where the last call stopped. */
    method WriteBytes(kind: nat, base: nat, data: seq<byte>, ghost before: seq<Sealed>, ghost due: bool) returns (r: int)
      requires Valid() && Progress(kind, base, data, before, wnum, due) && Tracked(kind, before, due)
      modifies this, bio
      ensures Valid()
      ensures r > 0 ==> r <= |data| && left == 0 && wnum == 0 && Progress(kind, base, data, before, r, due) && !emptyFragmentDone
      ensures r > 0 ==> r == |data| || (kind == APPLICATION_DATA && partialWrite)
      ensures r <= 0 ==> Progress(kind, base, data, before, wnum, due) && Tracked(kind, before, due)
      ensures NeverBlocks(bio.answers) && old(wnum) < |data| ==> r > 0
    {
      var from := wnum;
      wnum := 0;
      var i, tot := WriteChunks(kind, base, data, from, before, due);
      if i <= 0 {
        wnum := tot;
        return i;
      }
      return tot;
    }

    /** The loop of ssl3_write_bytes, from byte `from` on: it stops when a chunk does not go out or none is left. */
    method WriteChunks(kind: nat, base: nat, data: seq<byte>, from: nat, ghost before: seq<Sealed>, ghost due: bool) returns (i: int, tot: nat)
      requires Valid() && Progress(kind, base, data, before, from, due) && Tracked(kind, before, due)
      modifies this`wbuf, this`offset, this`left, this`sealed, this`emptyFragmentDone, bio
      modifies this`wpendTot, this`wpendBuf, this`wpendType, this`wpendRet
      ensures Valid() && from <= tot && Progress(kind, base, data, before, tot, due)
      ensures if i > 0 then !emptyFragmentDone else Tracked(kind, before, due)
      ensures i > 0 ==> left == 0 && tot > 0 && (tot == |data| || (kind == APPLICATION_DATA && partialWrite))
      ensures NeverBlocks(bio.answers) && from < |data| ==> i > 0
    {
      tot := from;
      var n := |data| - tot;
      while true
        invariant Valid() && from <= tot <= |data| && n == |data| - tot && (from < |data| ==> n > 0)
        invariant Progress(kind, base, data, before, tot, due) && Tracked(kind, before, due)
        decreases n
      {
        var nw := if n > maxSendFragment then maxSendFragment else n;
        i := DoWrite(kind, base, data, tot, nw, before, due);
        if i <= 0 {
          return;
        }
        tot := tot + i;
        if i == n || (kind == APPLICATION_DATA && partialWrite) {
          emptyFragmentDone := false;
          return;
        }
        n := n - i;
      }
    }

    /** The application's loop: the same buffer again until it is taken, or the application gives up. */
    method WriteRetrying(kind: nat, base: nat, data: seq<byte>, tries: nat) returns (r: int)
      requires Valid() && wnum == 0 && left == 0
      modifies this, bio
      ensures Valid() && old(sealed) <= sealed
      ensures r > 0 ==> left == 0 && wnum == 0 && bio.out == Ciphers(sealed)
      ensures r > 0 ==> r <= |data| && (r == |data| || (kind == APPLICATION_DATA && partialWrite))
      ensures NeverBlocks(bio.answers) && data != [] && tries > 0 ==> r > 0
      ensures var due := needEmptyFragments && !old(emptyFragmentDone) && kind == 23;
              && (r > 0 ==> Handed(data, old(sealed), r, kind, due) && !emptyFragmentDone)
              && (r <= 0 ==> Plains(sealed[|old(sealed)|..]) <= data && Progress(kind, base, data, old(sealed), wnum, due))
    {
      ghost var before, due := sealed, EmptyDue(kind);
      assert sealed[|before|..] == [] && data[..0] == [];
      r := Retry(kind, base, data, tries, before, due);
      if r > 0 {
        AllGone();
      } else {
        SealedPrefix(kind, base, data, before, due);
      }
    }

    method Retry(kind: nat, base: nat, data: seq<byte>, tries: nat, ghost before: seq<Sealed>, ghost due: bool) returns (r: int)
      requires Valid() && wnum == 0 && Progress(kind, base, data, before, 0, due) && Tracked(kind, before, due)
      modifies this, bio
      ensures Valid() && r >= 0
      ensures r > 0 ==> r <= |data| && left == 0 && wnum == 0 && Progress(kind, base, data, before, r, due) && !emptyFragmentDone
      ensures r > 0 ==> r == |data| || (kind == APPLICATION_DATA && partialWrite)
      ensures r == 0 ==> Progress(kind, base, data, before, wnum, due)
      ensures NeverBlocks(bio.answers) && data != [] && tries > 0 ==> r > 0
    {
      for k := 0 to tries
        invariant Valid() && Progress(kind, base, data, before, wnum, due) && Tracked(kind, before, due)
        invariant NeverBlocks(bio.answers) && data != [] ==> k == 0 && wnum == 0
      {
        r := WriteBytes(kind, base, data, before, due);
        if r > 0 {
          return;
        }
      }
      r := 0;
    }

    /** With nothing left the transport has everything. */
    lemma AllGone()
      requires Valid() && left == 0
      ensures bio.out == Ciphers(sealed)
    {
      assert wbuf[offset..offset + left] == [];
      assert bio.out + [] == bio.out;
    }

    /** What was sealed is a first part of the data. */
    lemma SealedPrefix(kind: nat, base: nat, data: seq<byte>, before: seq<Sealed>, due: bool)
      requires Progress(kind, base, data, before, wnum, due)
      ensures before <= sealed && Plains(sealed[|before|..]) <= data
    {
    }
  }

  /** Bytes move from the buffer to the transport. */
  lemma Advance(out: seq<byte>, wbuf: seq<byte>, offset: nat, left: nat, i: nat, all: seq<byte>)
    requires i <= left && offset + left <= |wbuf| && out + wbuf[offset..offset + left] == all
    ensures out + wbuf[offset..offset + left][..i] + wbuf[offset + i..offset + left] == all
  {
    var rest := wbuf[offset..offset + left];
    assert rest[..i] + rest[i..] == rest;
    assert wbuf[offset + i..offset + left] == rest[i..];
  }

  lemma CutNext(rs: seq<Sealed>, r: Sealed, limit: nat, due: bool, atEnd: bool)
    requires Cut(rs, r.kind, limit, due, false) && Fits(r.plain, due && |rs| == 0, limit, atEnd)
    ensures Cut(rs + [r], r.kind, limit, due, atEnd)
  {
  }

  lemma TailGrows(log: seq<Sealed>, start: nat, r: Sealed)
    requires start <= |log|
    ensures (log + [r])[start..] == log[start..] + [r]
  {
  }

  /** The log with one more record. */
  lemma SealedNext(log: seq<Sealed>, before: seq<Sealed>, r: Sealed, limit: nat, due: bool, atEnd: bool)
    requires before <= log && Cut(log[|before|..], r.kind, limit, due, false)
    requires Fits(r.plain, due && |log| == |before|, limit, atEnd)
    ensures before <= log + [r] && Cut((log + [r])[|before|..], r.kind, limit, due, atEnd)
    ensures Ciphers(log + [r]) == Ciphers(log) + r.cipher
    ensures Plains((log + [r])[|before|..]) == Plains(log[|before|..]) + r.plain
  {
    LogGrows(log, |before|, r);
    TailGrows(log, |before|, r);
    CutNext(log[|before|..], r, limit, due, atEnd);
  }

  /** The buffer with one more record. */
  lemma BufferNext(out: seq<byte>, was: seq<byte>, cipher: seq<byte>, align: nat)
    requires align <= |was|
    ensures out + (was + cipher)[align..] == out + was[align..] + cipher
  {
    assert (was + cipher)[align..] == was[align..] + cipher;
    Regroup(out, was[align..], cipher);
  }

  lemma Regroup(a: seq<byte>, b: seq<byte>, c: seq<byte>)
    ensures a + b + c == a + (b + c)
  {
  }
}
