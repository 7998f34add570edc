/** The builder of ssl/bs_cbb.c. Builders form a chain over one shared buffer:
    each but the last has a child with a pending length prefix. `parts[i]` is what
    builder i has written since its prefix, `kinds[i]` the prefix before builder i+1. */
module ByteBuilder {
  import opened Asn1

  /** A pending prefix: `width` length bytes, or an ASN.1 length of unknown size. */
  datatype Kind = Fixed(width: nat) | Der

  /** Bytes set aside for a prefix before its length is known. */
  function Placeholder(k: Kind): nat { if k.Fixed? then k.width else 1 }

  predicate Fits(k: Kind, len: nat) {
    match k
    case Fixed(width) => len < Pow256(width)
    case Der => len <= 0xffff_fffe
  }

  /** The encoded length, for a length that fits. */
  function Prefix(k: Kind, len: nat): seq<byte> {
    match k
    case Fixed(width) => ToBytes(len, width)
    case Der => if len < 0x1_0000_0000 then LengthOctets(len) else []
  }

  // ---------- what lies in the buffer and what it stands for ----------

  predicate Shape(parts: seq<seq<byte>>, kinds: seq<Kind>) {
    |parts| == |kinds| + 1
  }

  /** The buffer while prefixes are pending. */
  function Layout(parts: seq<seq<byte>>, kinds: seq<Kind>): seq<byte>
    requires Shape(parts, kinds)
    decreases |kinds|
  {
    if kinds == [] then parts[0]
    else
      var n := |kinds| - 1;
      Layout(parts[..n + 1], kinds[..n]) + Zeros(Placeholder(kinds[n])) + parts[n + 1]
  }

  /** The contents of level `k` once everything behind it is closed. */
  function Closed(parts: seq<seq<byte>>, kinds: seq<Kind>, k: nat): seq<byte>
    requires Shape(parts, kinds) && k <= |kinds|
    decreases |kinds| - k
  {
    if k == |kinds| then parts[k]
    else
      var inner := Closed(parts, kinds, k + 1);
      parts[k] + Prefix(kinds[k], |inner|) + inner
  }

  /** All prefixes from level `k` on can hold their lengths. */
  predicate AllFit(parts: seq<seq<byte>>, kinds: seq<Kind>, k: nat)
    requires Shape(parts, kinds) && k <= |kinds|
    decreases |kinds| - k
  {
    k < |kinds| ==> Fits(kinds[k], |Closed(parts, kinds, k + 1)|) && AllFit(parts, kinds, k + 1)
  }

  /** How much lies before the contents of level `k`, pending prefixes included. */
  function Before(parts: seq<seq<byte>>, kinds: seq<Kind>, k: nat): nat
    requires Shape(parts, kinds) && k <= |kinds|
  {
    if k == 0 then 0 else Before(parts, kinds, k - 1) + |parts[k - 1]| + Placeholder(kinds[k - 1])
  }

  /** The length of the buffer. */
  function Length(parts: seq<seq<byte>>, kinds: seq<Kind>): nat
    requires Shape(parts, kinds)
  {
    Before(parts, kinds, |kinds|) + |parts[|kinds|]|
  }

  /** The length of the buffer once everything behind level `k` is closed. */
  function Extent(parts: seq<seq<byte>>, kinds: seq<Kind>, k: nat): nat
    requires Shape(parts, kinds) && k <= |kinds|
  {
    Before(parts, kinds, k) + |Closed(parts, kinds, k)|
  }

  lemma {:induction false} BeforeSame(p: seq<seq<byte>>, a: seq<Kind>, q: seq<seq<byte>>, b: seq<Kind>, k: nat)
    requires Shape(p, a) && Shape(q, b) && k <= |a| && k <= |b|
    requires forall i :: 0 <= i < k ==> p[i] == q[i] && a[i] == b[i]
    ensures Before(p, a, k) == Before(q, b, k)
  {
    if k > 0 {
      BeforeSame(p, a, q, b, k - 1);
    }
  }

  lemma {:induction false} LayoutLength(parts: seq<seq<byte>>, kinds: seq<Kind>)
    requires Shape(parts, kinds)
    ensures |Layout(parts, kinds)| == Length(parts, kinds)
    decreases |kinds|
  {
    if kinds != [] {
      var n := |kinds| - 1;
      var p, a := parts[..n + 1], kinds[..n];
      LayoutLength(p, a);
      BeforeSame(p, a, parts, kinds, n);
    }
  }

  lemma LengthExtend(parts: seq<seq<byte>>, kinds: seq<Kind>, more: seq<byte>)
    requires Shape(parts, kinds)
    ensures var n := |kinds|; Length(parts[..n] + [parts[n] + more], kinds) == Length(parts, kinds) + |more|
  {
    var n := |kinds|;
    BeforeSame(parts[..n] + [parts[n] + more], kinds, parts, kinds, n);
  }

  lemma LengthSnoc(parts: seq<seq<byte>>, kinds: seq<Kind>, kind: Kind, last: seq<byte>)
    requires Shape(parts, kinds)
    ensures Length(parts + [last], kinds + [kind]) == Length(parts, kinds) + Placeholder(kind) + |last|
  {
    BeforeSame(parts + [last], kinds + [kind], parts, kinds, |kinds|);
  }

  lemma LengthFlushed(parts: seq<seq<byte>>, kinds: seq<Kind>, k: nat)
    requires Shape(parts, kinds) && k <= |kinds|
    ensures Length(parts[..k] + [Closed(parts, kinds, k)], kinds[..k]) == Extent(parts, kinds, k)
  {
    BeforeSame(parts[..k] + [Closed(parts, kinds, k)], kinds[..k], parts, kinds, k);
  }

  lemma LengthClosed(parts: seq<seq<byte>>, kinds: seq<Kind>, k: nat, more: seq<byte>)
    requires Shape(parts, kinds) && k <= |kinds|
    ensures Length(parts[..k] + [Closed(parts, kinds, k) + more], kinds[..k]) == Extent(parts, kinds, k) + |more|
  {
    BeforeSame(parts[..k] + [Closed(parts, kinds, k) + more], kinds[..k], parts, kinds, k);
  }

  /** Memory for any size that a size_t can hold. */
  ghost predicate Ample(allocates: nat -> bool) {
    forall n: nat :: n < 0x1_0000_0000_0000_0000 ==> allocates(n)
  }

  // ---------- the shared buffer ----------

  /** struct cbb_buffer_st; the capacity is the size of `buf`. */
  class Buffer {
    var buf: seq<byte>
    var len: nat
    const canResize: bool
    /** The size at the beginning, for good if the buffer cannot be resized. */
    const capacity: nat
    /** Whether reallocation to so many bytes succeeds. */
    const allocates: nat -> bool
    /** The open builders from the top down. */
    ghost var chain: seq<Cbb>
    ghost var parts: seq<seq<byte>>
    ghost var kinds: seq<Kind>

    constructor (buf: seq<byte>, canResize: bool, allocates: nat -> bool)
      ensures this.buf == buf && len == 0 && this.canResize == canResize && capacity == |buf| && this.allocates == allocates
      ensures chain == [] && parts == [] && kinds == []
    {
      this.buf, len, this.canResize, capacity, this.allocates := buf, 0, canResize, |buf|, allocates;
      chain, parts, kinds := [], [], [];
    }

    /** Builder `i` of the chain: attached, linked to the next, aware of where its child's prefix goes. */
    ghost predicate Link(i: nat)
      requires Shape(parts, kinds) && |chain| == |parts| && i < |chain|
      reads this`parts, this`kinds, this`chain, chain
    {
      && chain[i].level == i && chain[i].base == this
      && (i == |kinds| ==> chain[i].child == null)
      && (i < |kinds| ==>
            && chain[i].child == chain[i + 1]
            && chain[i].pendingLenLen == Placeholder(kinds[i]) > 0
            && chain[i].pendingIsAsn1 == kinds[i].Der?
            && chain[i].offset == Before(parts, kinds, i) + |parts[i]|)
    }

    /** So many bytes cannot be had: the buffer is fixed and smaller, or a size_t or memory is not enough. */
    ghost predicate NoRoom(n: nat) {
      if canResize then n >= 0x1_0000_0000_0000_0000 || !Ample(allocates) else n > capacity
    }

    /** The bytes in use and the size of the buffer. */
    ghost predicate Sound()
      reads this`len, this`buf
    {
      len <= |buf| < 0x1_0000_0000_0000_0000 && (!canResize ==> |buf| == capacity)
    }

    ghost predicate Linked()
      reads this, chain
    {
      && Sound()
      && Shape(parts, kinds) && |chain| == |parts|
      && forall i {:trigger Link(i)} :: 0 <= i < |chain| ==> Link(i)
    }

    ghost predicate Valid()
      reads this, chain
    {
      Linked() && buf[..len] == Layout(parts, kinds)
    }

    lemma Distinct()
      requires Linked()
      ensures forall i, j :: 0 <= i < j < |chain| ==> chain[i] != chain[j]
    {
      forall i, j | 0 <= i < j < |chain|
        ensures chain[i] != chain[j]
      {
        assert Link(i) && Link(j);
      }
    }

    /** cbb_buffer_add: `n` more bytes, of any content. */
    method Add(n: nat) returns (ok: bool)
      requires Sound()
      modifies this`buf, this`len
      ensures Sound()
      ensures ok ==> len == old(len) + n <= |buf| && buf[..old(len)] == old(buf[..len]) && |buf| >= old(|buf|)
      ensures !ok ==> buf == old(buf) && len == old(len) && old(len) + n > |buf| && NoRoom(old(len) + n)
    {
      var newlen := len + n;
      if newlen >= 0x1_0000_0000_0000_0000 {
        return false;
      }
      if newlen > |buf| {
        if !canResize {
          return false;
        }
        var newcap := 2 * |buf|;
        if newcap >= 0x1_0000_0000_0000_0000 || newcap < newlen {
          newcap := newlen;
        }
        if !allocates(newcap) {
          return false;
        }
        buf := buf + Zeros(newcap - |buf|);
      }
      len := newlen;
      return true;
    }

    /** Writes the low `n` bytes of `v` at `at`, last byte first; what is left of `v` is returned. */
    method WriteNumber(at: nat, n: nat, v: nat) returns (left: nat)
      requires at + n <= |buf|
      modifies this`buf
      ensures buf == old(buf)[..at] + ToBytes(v, n) + old(buf)[at + n..]
      ensures left == 0 <==> v < Pow256(n)
    {
      left := v;
      var i := n;
      while i > 0
        invariant 0 <= i <= n
        invariant |buf| == |old(buf)| && buf[..at + i] == old(buf)[..at + i]
        invariant buf[at + n..] == old(buf)[at + n..]
        invariant ToBytes(left, i) + buf[at + i..at + n] == ToBytes(v, n)
        invariant left < Pow256(i) <==> v < Pow256(n)
      {
        i := i - 1;
        ghost var written := buf[at + i + 1..at + n];
        buf := buf[at + i := left % 256];
        assert buf[at + i..at + n] == [left % 256] + written;
        assert buf[..at + i] == old(buf)[..at + i] by { assert old(buf)[..at + i + 1][..at + i] == old(buf)[..at + i]; }
        left := left / 256;
      }
      assert buf == buf[..at] + buf[at..at + n] + buf[at + n..];
    }

    /** Back-patches a length of fixed width. */
    method PatchFixed(offset: nat, width: nat, length: nat, ghost before: seq<byte>, ghost inner: seq<byte>) returns (ok: bool)
      requires len <= |buf|
      requires buf[..len] == before + Zeros(width) + inner && offset == |before| && length == |inner|
      modifies this`buf
      ensures |buf| == old(|buf|)
      ensures ok == Fits(Fixed(width), length)
      ensures ok ==> buf[..len] == before + ToBytes(length, width) + inner
    {
      ghost var all := buf;
      var left := WriteNumber(offset, width, length);
      ok := left == 0;
      assert all[..offset] == all[..len][..offset] == before;
      assert all[offset + width..len] == all[..len][offset + width..] == inner;
      assert buf[..len] == all[..offset] + ToBytes(length, width) + all[offset + width..len];
    }

    /** Back-patches an ASN.1 length: for the long form the contents move up to make room. */
    method PatchDer(offset: nat, length: nat, ghost before: seq<byte>, ghost inner: seq<byte>) returns (ok: bool)
      requires Sound()
      requires buf[..len] == before + [0] + inner && offset == |before| && length == |inner|
      modifies this`buf, this`len
      ensures Sound() && |buf| >= old(|buf|)
      ensures ok ==> Fits(Der, length) && len <= |buf| && buf[..len] == before + LengthOctets(length) + inner
      ensures !ok ==> !Fits(Der, length) || NoRoom(|before| + |LengthOctets(length)| + |inner|)
    {
      if length > 0xffff_fffe {
        return false;
      }
      var lenLen := 1;
      if length > 0xff_ffff {
        lenLen := 5;
      } else if length > 0xffff {
        lenLen := 4;
      } else if length > 0xff {
        lenLen := 3;
      } else if length > 0x7f {
        lenLen := 2;
      }
      assert lenLen == |LengthOctets(length)|;
      if lenLen == 1 {
        PatchShort(offset, length, before, inner);
        return true;
      }
      ok := Add(lenLen - 1);
      if ok {
        MakeRoom(offset, lenLen - 1, length, before, inner);
        PatchLong(offset, lenLen - 1, length, before, inner);
      }
    }

    /** Short form: the reserved byte is the length. */
    method PatchShort(offset: nat, length: nat, ghost before: seq<byte>, ghost inner: seq<byte>)
      requires len <= |buf|
      requires buf[..len] == before + [0] + inner && offset == |before| && length == |inner| < 128
      modifies this`buf
      ensures |buf| == old(|buf|) && buf[..len] == before + [length] + inner
    {
      ghost var all := buf[..len];
      buf := buf[offset := length];
      assert buf[..len] == all[..offset] + [length] + all[offset + 1..];
    }

    /** memmove of the contents by `extra` bytes. */
    method MakeRoom(offset: nat, extra: nat, length: nat, ghost before: seq<byte>, ghost inner: seq<byte>)
      requires offset == |before| && length == |inner|
      requires len == offset + 1 + length + extra <= |buf|
      requires buf[..len - extra] == before + [0] + inner
      modifies this`buf
      ensures |buf| == old(|buf|) && buf[..offset] == before && buf[offset + 1 + extra..len] == inner
    {
      ghost var all := buf[..len - extra];
      var start := offset + 1;
      buf := buf[..start + extra] + buf[start..start + length] + buf[start + extra + length..];
      assert buf[..offset] == all[..offset];
      assert buf[start + extra..len] == all[start..];
    }

    /** Long form: the number of length bytes, then the length. */
    method PatchLong(offset: nat, count: nat, length: nat, ghost before: seq<byte>, ghost inner: seq<byte>)
      requires offset == |before| && 128 <= length < 0x1_0000_0000 && count == LongCount(length)
      requires len == offset + 1 + count + |inner| <= |buf|
      requires buf[..offset] == before && buf[offset + 1 + count..len] == inner
      modifies this`buf
      ensures |buf| == old(|buf|) && buf[..len] == before + LengthOctets(length) + inner
    {
      buf := buf[offset := 0x80 + count];
      ghost var all := buf;
      var left := WriteNumber(offset + 1, count, length);
      assert all[..offset + 1] == before + [0x80 + count];
      assert all[offset + 1 + count..len] == inner;
      PatchedLayout(all, buf, offset + 1, count, len, ToBytes(length, count));
      assert before + LengthOctets(length) == before + [0x80 + count] + ToBytes(length, count);
    }
  }

  lemma PatchedLayout(was: seq<byte>, now: seq<byte>, at: nat, count: nat, len: nat, bytes: seq<byte>)
    requires at + count <= len <= |was| && |bytes| == count && now == was[..at] + bytes + was[at + count..]
    ensures now[..len] == was[..at] + bytes + was[at + count..len]
  {
  }

  class Cbb {
    var base: Buffer?
    var offset: nat
    var child: Cbb?
    var pendingLenLen: nat
    var pendingIsAsn1: bool
    var isTopLevel: bool
    /** The position in the chain while attached. */
    ghost var level: nat

    constructor ()
      ensures base == null && child == null && pendingLenLen == 0
    {
      base, offset, child, pendingLenLen, pendingIsAsn1, isTopLevel := null, 0, null, 0, false, false;
    }
  }

  /** More bytes in the last part are more bytes at the end. */
  lemma LayoutExtend(parts: seq<seq<byte>>, kinds: seq<Kind>, more: seq<byte>)
    requires Shape(parts, kinds)
    ensures var n := |kinds|;
            Layout(parts[..n] + [parts[n] + more], kinds) == Layout(parts, kinds) + more
  {
    var n := |kinds|;
    if n > 0 {
      assert (parts[..n] + [parts[n] + more])[..n] == parts[..n];
    }
  }

  /** The state of the buffer after levels from `k` on are closed. */
  twostate predicate ClosedTo(base: Buffer, k: nat)
    requires Shape(old(base.parts), old(base.kinds)) && k <= |old(base.kinds)| && |old(base.chain)| == |old(base.parts)|
    reads base
  {
    && base.chain == old(base.chain)[..k + 1]
    && base.kinds == old(base.kinds)[..k]
    && base.parts == old(base.parts)[..k] + [Closed(old(base.parts), old(base.kinds), k)]
  }

  /** Writes the pending length of the second last builder, whose child is the last. */
  method PatchLast(base: Buffer, cbb: Cbb, ghost k: nat) returns (ok: bool)
    requires base.Valid() && |base.chain| == k + 2 && base.chain[k] == cbb
    modifies base`buf, base`len
    ensures ok ==> base.Linked() && Fits(base.kinds[k], |base.parts[k + 1]|)
    ensures ok ==> base.buf[..base.len]
                   == Layout(base.parts[..k + 1], base.kinds[..k]) + (Prefix(base.kinds[k], |base.parts[k + 1]|) + base.parts[k + 1])
    ensures !ok ==> !Fits(base.kinds[k], |base.parts[k + 1]|)
                    || base.NoRoom(Before(base.parts, base.kinds, k) + |base.parts[k]|
                                   + |Prefix(base.kinds[k], |base.parts[k + 1]|)| + |base.parts[k + 1]|)
  {
    assert base.Link(k);
    PendingLayout(base.parts, base.kinds, k);
    FrontLength(base.parts, base.kinds, k);
    var childStart := cbb.offset + cbb.pendingLenLen;
    if base.len < childStart {
      return false;
    }
    ok := Patch(base, cbb.offset, cbb.pendingLenLen, cbb.pendingIsAsn1, base.len - childStart, base.kinds[k],
                Layout(base.parts[..k + 1], base.kinds[..k]), base.parts[k + 1]);
    forall i | 0 <= i < |base.chain|
      ensures base.Link(i)
    {
      assert old(base.Link(i));
    }
  }

  lemma FrontLength(parts: seq<seq<byte>>, kinds: seq<Kind>, k: nat)
    requires Shape(parts, kinds) && k <= |kinds|
    ensures |Layout(parts[..k + 1], kinds[..k])| == Before(parts, kinds, k) + |parts[k]|
  {
    LayoutLength(parts[..k + 1], kinds[..k]);
    BeforeSame(parts[..k + 1], kinds[..k], parts, kinds, k);
  }

  lemma PendingLayout(parts: seq<seq<byte>>, kinds: seq<Kind>, k: nat)
    requires Shape(parts, kinds) && |kinds| == k + 1
    ensures Layout(parts, kinds) == Layout(parts[..k + 1], kinds[..k]) + Zeros(Placeholder(kinds[k])) + parts[k + 1]
  {
  }

  /** Either kind of pending length gets its value. */
  method Patch(base: Buffer, offset: nat, lenLen: nat, isAsn1: bool, length: nat, ghost kind: Kind, ghost before: seq<byte>, ghost inner: seq<byte>)
      returns (ok: bool)
    requires base.Sound() && base.buf[..base.len] == before + Zeros(Placeholder(kind)) + inner
    requires offset == |before| && length == |inner| && lenLen == Placeholder(kind) && isAsn1 == kind.Der?
    modifies base`buf, base`len
    ensures ok ==> base.Sound() && Fits(kind, length) && base.buf[..base.len] == before + (Prefix(kind, length) + inner)
    ensures !ok ==> !Fits(kind, length) || base.NoRoom(|before| + |Prefix(kind, length)| + |inner|)
  {
    if isAsn1 {
      assert Zeros(1) == [0];
      ok := base.PatchDer(offset, length, before, inner);
    } else {
      ok := base.PatchFixed(offset, lenLen, length, before, inner);
    }
    assert before + Prefix(kind, length) + inner == before + (Prefix(kind, length) + inner);
  }

  /** Takes the last builder off the chain; its bytes now belong to its parent. */
  method Detach(base: Buffer, cbb: Cbb, child: Cbb, ghost k: nat, ghost more: seq<byte>)
    requires base.Linked() && |base.chain| == k + 2 && base.chain[k] == cbb && base.chain[k + 1] == child
    requires base.buf[..base.len] == Layout(base.parts[..k + 1], base.kinds[..k]) + more
    modifies base`chain, base`parts, base`kinds, cbb`child, cbb`offset, cbb`pendingLenLen, cbb`pendingIsAsn1, child`base
    ensures base.Valid() && child.base == null
    ensures base.chain == old(base.chain)[..k + 1] && base.kinds == old(base.kinds)[..k]
    ensures base.parts == old(base.parts)[..k] + [old(base.parts)[k] + more]
  {
    ghost var parts, kinds := base.parts[..k + 1], base.kinds[..k];
    LayoutExtend(parts, kinds, more);
    assert parts[..k] == base.parts[..k];
    assert base.Link(k) && base.Link(k + 1);
    Forget(cbb, child);
    base.chain := base.chain[..k + 1];
    base.kinds := kinds;
    base.parts := parts[..k] + [parts[k] + more];
    forall i | 0 <= i <= k
      ensures base.Link(i)
    {
      assert old(base.Link(i));
      BeforeSame(base.parts, base.kinds, old(base.parts), old(base.kinds), i);
    }
  }

  /** The child has no buffer any more, and its parent no child. */
  method Forget(cbb: Cbb, child: Cbb)
    modifies cbb`child, cbb`offset, cbb`pendingLenLen, cbb`pendingIsAsn1, child`base
    ensures child.base == null && cbb.child == null && cbb.pendingLenLen == 0 && !cbb.pendingIsAsn1 && cbb.offset == 0
  {
    child.base := null;
    cbb.child := null;
    cbb.pendingLenLen := 0;
    cbb.pendingIsAsn1 := false;
    cbb.offset := 0;
  }

  /** CBB_flush on a builder that is still attached, at level `k` of the chain. */
  method FlushFrom(base: Buffer, cbb: Cbb, ghost k: nat) returns (ok: bool)
    requires base.Valid() && k < |base.chain| && base.chain[k] == cbb
    modifies base, base.chain`child, base.chain`offset, base.chain`pendingLenLen, base.chain`pendingIsAsn1, base.chain`base
    ensures ok ==> base.Valid() && ClosedTo(base, k) && AllFit(old(base.parts), old(base.kinds), k)
    ensures !ok ==> Refused(base, old(base.parts), old(base.kinds), k, 0)
    ensures ok ==> forall j :: k < j < |old(base.chain)| ==> old(base.chain)[j].base == null
  {
    ok := FlushLevel(base, cbb, k, base.chain, base.parts, base.kinds);
  }

  /** The recursion of CBB_flush, over a snapshot of the chain. */
  method FlushLevel(base: Buffer, cbb: Cbb, ghost k: nat, ghost chain: seq<Cbb>, ghost parts: seq<seq<byte>>, ghost kinds: seq<Kind>)
    returns (ok: bool)
    requires base.Valid() && base.chain == chain && base.parts == parts && base.kinds == kinds
    requires k < |chain| && chain[k] == cbb
    modifies base, chain`child, chain`offset, chain`pendingLenLen, chain`pendingIsAsn1, chain`base
    ensures ok ==> Flushed(base, k, chain, parts, kinds)
    ensures !ok ==> Refused(base, parts, kinds, k, 0)
    ensures ok ==> Detached(chain, k + 1)
    decreases |chain| - k, 1
  {
    ChildOf(base, k);
    if cbb.child == null || cbb.pendingLenLen == 0 {
      AlreadyClosed(parts, kinds);
      assert chain[..k + 1] == chain;
      return true;
    }
    ok := FlushChild(base, cbb, cbb.child, k, chain, parts, kinds);
  }

  /** First what is behind the child, then the child. */
  method FlushChild(base: Buffer, cbb: Cbb, child: Cbb, ghost k: nat, ghost chain: seq<Cbb>, ghost parts: seq<seq<byte>>, ghost kinds: seq<Kind>)
    returns (ok: bool)
    requires base.Valid() && base.chain == chain && base.parts == parts && base.kinds == kinds
    requires k < |kinds| && chain[k] == cbb && chain[k + 1] == child
    modifies base, chain`child, chain`offset, chain`pendingLenLen, chain`pendingIsAsn1, chain`base
    ensures ok ==> Flushed(base, k, chain, parts, kinds)
    ensures !ok ==> Refused(base, parts, kinds, k, 0)
    ensures ok ==> Detached(chain, k + 1)
    decreases |chain| - k, 0
  {
    ok := FlushLevel(base, child, k + 1, chain, parts, kinds);
    if !ok {
      RefusedBelow(base, parts, kinds, k);
      return;
    }
    ok := CloseOne(base, cbb, child, k, chain, parts, kinds);
    assert ok ==> forall j :: k + 2 <= j < |chain| ==> chain[j].base == null;
  }

  /** The builders from here on belong to no buffer any more. */
  ghost predicate Detached(chain: seq<Cbb>, from: nat)
    reads chain
  {
    forall j :: from <= j < |chain| ==> chain[j].base == null
  }

  /** Everything behind level `k` is closed, and every length fitted. */
  ghost predicate Flushed(base: Buffer, k: nat, chain: seq<Cbb>, parts: seq<seq<byte>>, kinds: seq<Kind>)
    requires Shape(parts, kinds) && k <= |kinds| && |chain| == |parts|
    reads base, base.chain
  {
    base.Valid() && base.chain == chain[..k + 1] && base.kinds == kinds[..k]
    && base.parts == parts[..k] + [Closed(parts, kinds, k)] && AllFit(parts, kinds, k)
  }

  /** Only the last builder of a chain has no child. */
  lemma ChildOf(base: Buffer, k: nat)
    requires base.Valid() && k < |base.chain|
    ensures var c := base.chain[k];
            if c.child == null || c.pendingLenLen == 0 then k == |base.kinds| else k < |base.kinds| && c.child == base.chain[k + 1]
  {
    assert base.Link(k);
  }

  lemma RefusedBelow(base: Buffer, parts: seq<seq<byte>>, kinds: seq<Kind>, k: nat)
    requires Shape(parts, kinds) && k < |kinds|
    ensures Refused(base, parts, kinds, k + 1, 0) ==> Refused(base, parts, kinds, k, 0)
  {
    ExtentGrows(parts, kinds, k);
  }

  /** One step of the recursion: everything behind the child is closed already. */
  method CloseOne(base: Buffer, cbb: Cbb, child: Cbb, ghost k: nat, ghost chain: seq<Cbb>, ghost parts: seq<seq<byte>>, ghost kinds: seq<Kind>)
      returns (ok: bool)
    requires Shape(parts, kinds) && k < |kinds| && |chain| == |parts| && chain[k] == cbb && chain[k + 1] == child
    requires Flushed(base, k + 1, chain, parts, kinds)
    modifies base, cbb`child, cbb`offset, cbb`pendingLenLen, cbb`pendingIsAsn1, child`base
    ensures ok ==> Flushed(base, k, chain, parts, kinds) && child.base == null
    ensures !ok ==> Refused(base, parts, kinds, k, 0)
  {
    CloseStep(parts, kinds, k);
    BeforeSame(base.parts, base.kinds, parts, kinds, k);
    assert base.parts[..k + 1] == parts[..k + 1] && base.kinds[..k] == kinds[..k] && base.chain[..k + 1] == chain[..k + 1];
    ok := CloseLast(base, cbb, child, k);
  }

  /** Closing a level leaves no less in the buffer: a length takes at least the room set aside for it. */
  lemma ExtentGrows(parts: seq<seq<byte>>, kinds: seq<Kind>, k: nat)
    requires Shape(parts, kinds) && k < |kinds|
    ensures AllFit(parts, kinds, k) ==> Extent(parts, kinds, k + 1) <= Extent(parts, kinds, k)
  {
  }

  lemma AlreadyClosed(parts: seq<seq<byte>>, kinds: seq<Kind>)
    requires Shape(parts, kinds)
    ensures var k := |kinds|;
            Closed(parts, kinds, k) == parts[k] && parts[..k] + [parts[k]] == parts && kinds[..k] == kinds && AllFit(parts, kinds, k)
  {
  }

  lemma CloseStep(parts: seq<seq<byte>>, kinds: seq<Kind>, k: nat)
    requires Shape(parts, kinds) && k < |kinds|
    ensures var inner := Closed(parts, kinds, k + 1);
            var p := parts[..k + 1] + [inner];
            && p[..k] + [p[k] + (Prefix(kinds[..k + 1][k], |p[k + 1]|) + p[k + 1])] == parts[..k] + [Closed(parts, kinds, k)]
            && (AllFit(parts, kinds, k + 1) && Fits(kinds[..k + 1][k], |p[k + 1]|) ==> AllFit(parts, kinds, k))
            && kinds[..k + 1][..k] == kinds[..k]
  {
    var inner := Closed(parts, kinds, k + 1);
    var p := parts[..k + 1] + [inner];
    assert parts[k] + Prefix(kinds[k], |inner|) + inner == parts[k] + (Prefix(kinds[k], |inner|) + inner);
    assert p[..k] == parts[..k];
  }

  /** Closes the last builder into its parent. */
  method CloseLast(base: Buffer, cbb: Cbb, child: Cbb, ghost k: nat) returns (ok: bool)
    requires base.Valid() && |base.chain| == k + 2 && base.chain[k] == cbb && base.chain[k + 1] == child
    modifies base, cbb`child, cbb`offset, cbb`pendingLenLen, cbb`pendingIsAsn1, child`base
    ensures ok ==> base.Valid() && child.base == null
    ensures ok ==> base.chain == old(base.chain)[..k + 1] && base.kinds == old(base.kinds)[..k]
    ensures ok ==> var inner, kind := old(base.parts)[k + 1], old(base.kinds)[k];
                   && Fits(kind, |inner|)
                   && base.parts == old(base.parts)[..k] + [old(base.parts)[k] + (Prefix(kind, |inner|) + inner)]
    ensures !ok ==> var inner, kind := old(base.parts)[k + 1], old(base.kinds)[k];
                    !Fits(kind, |inner|)
                    || base.NoRoom(Before(old(base.parts), old(base.kinds), k) + |old(base.parts)[k]| + |Prefix(kind, |inner|)| + |inner|)
  {
    ok := PatchLast(base, cbb, k);
    if ok {
      Detach(base, cbb, child, k, Prefix(base.kinds[k], |base.parts[k + 1]|) + base.parts[k + 1]);
    }
  }

  // ---------- adding to an open builder ----------

  /** Level `k` holds `more` behind everything it held; what was open behind it is closed. */
  twostate predicate Extended(base: Buffer, k: nat, more: seq<byte>)
    requires Shape(old(base.parts), old(base.kinds)) && k <= |old(base.kinds)| && |old(base.chain)| == |old(base.parts)|
    reads base
  {
    && base.chain == old(base.chain)[..k + 1]
    && base.kinds == old(base.kinds)[..k]
    && base.parts == old(base.parts)[..k] + [Closed(old(base.parts), old(base.kinds), k) + more]
  }

  /** Why a call at level `k` that would write `n` bytes failed: a length behind it does not fit, or there is no room. */
  ghost predicate Refused(base: Buffer, parts: seq<seq<byte>>, kinds: seq<Kind>, k: nat, n: nat)
    requires Shape(parts, kinds) && k <= |kinds|
  {
    !AllFit(parts, kinds, k) || base.NoRoom(Extent(parts, kinds, k) + n)
  }

  /** The buffer grows as needed and memory does not run out. */
  ghost predicate Roomy(base: Buffer) {
    base.canResize && Ample(base.allocates)
  }

  /** Appends to the last builder of the chain. */
  method Append(base: Buffer, data: seq<byte>, ghost k: nat) returns (ok: bool)
    requires base.Valid() && |base.chain| == k + 1
    modifies base
    ensures base.chain == old(base.chain) && base.kinds == old(base.kinds)
    ensures ok ==> base.Valid() && base.parts == old(base.parts)[..k] + [old(base.parts)[k] + data]
    ensures !ok ==> base.NoRoom(Length(old(base.parts), old(base.kinds)) + |data|)
  {
    LayoutLength(base.parts, base.kinds);
    ok := base.Add(|data|);
    if !ok {
      return;
    }
    var at := base.len - |data|;
    base.buf := base.buf[..at] + data + base.buf[base.len..];
    forall i | 0 <= i < |base.chain|
      ensures base.Link(i)
    {
      assert old(base.Link(i));
    }
    assert base.buf[..base.len] == base.buf[..at] + data;
    Grow(base, data, k);
  }

  /** The builders a call on this one may change: none when it is detached. */
  ghost function Family(cbb: Cbb): set<Cbb>
    reads cbb, cbb.base
  {
    if cbb.base == null then {} else set c | c in cbb.base.chain
  }

  ghost predicate IsOpen(cbb: Cbb, k: nat)
    reads cbb, cbb.base, if cbb.base == null then [] else cbb.base.chain
  {
    cbb.base != null && cbb.base.Valid() && k < |cbb.base.chain| && cbb.base.chain[k] == cbb
  }

  /** CBB_add_bytes; a builder that was flushed by its parent refuses. */
  method AddBytes(cbb: Cbb, data: seq<byte>, ghost k: nat) returns (ok: bool)
    requires cbb.base != null ==> IsOpen(cbb, k)
    modifies cbb.base, Family(cbb)`child, Family(cbb)`offset, Family(cbb)`pendingLenLen, Family(cbb)`pendingIsAsn1, Family(cbb)`base
    ensures old(cbb.base) == null ==> !ok
    ensures ok ==> cbb.base == old(cbb.base) && IsOpen(cbb, k) && Extended(cbb.base, k, data)
    ensures !ok && old(cbb.base) != null ==> Refused(old(cbb.base), old(cbb.base.parts), old(cbb.base.kinds), k, |data|)
    ensures ok ==> AllFit(old(cbb.base.parts), old(cbb.base.kinds), k)
    ensures ok ==> forall j :: k < j < |old(cbb.base.chain)| ==> old(cbb.base.chain)[j].base == null
  {
    if cbb.base == null {
      return false;
    }
    var base := cbb.base;
    ok := FlushFrom(base, cbb, k);
    if ok {
      LengthFlushed(old(cbb.base.parts), old(cbb.base.kinds), k);
      ok := Append(base, data, k);
      assert ok ==> base.Link(k);
    }
  }

  twostate predicate Untouched(base: Buffer)
    reads base
  {
    base.chain == old(base.chain) && base.parts == old(base.parts) && base.kinds == old(base.kinds)
  }

  /** cbb_add_u: the low `width` bytes of `v`; a width of zero does nothing at all. */
  method AddU(cbb: Cbb, v: nat, width: nat, ghost k: nat) returns (ok: bool)
    requires cbb.base != null ==> IsOpen(cbb, k)
    modifies cbb.base, Family(cbb)`child, Family(cbb)`offset, Family(cbb)`pendingLenLen, Family(cbb)`pendingIsAsn1, Family(cbb)`base
    ensures width > 0 && (old(cbb.base) == null || width > 4) ==> !ok
    ensures width == 0 ==> ok && (old(cbb.base) != null ==> cbb.base == old(cbb.base) && IsOpen(cbb, k) && Untouched(cbb.base))
    ensures ok && width > 0 ==> cbb.base == old(cbb.base) && IsOpen(cbb, k) && Extended(cbb.base, k, ToBytes(v, width))
    ensures ok && width > 0 ==> AllFit(old(cbb.base.parts), old(cbb.base.kinds), k)
    ensures ok && width > 0 ==> forall j :: k < j < |old(cbb.base.chain)| ==> old(cbb.base.chain)[j].base == null
    ensures !ok && width <= 4 && old(cbb.base) != null ==> Refused(old(cbb.base), old(cbb.base.parts), old(cbb.base.kinds), k, width)
  {
    if width == 0 {
      return true;
    }
    if width > 4 {
      return false;
    }
    if cbb.base == null {
      return false;
    }
    var base := cbb.base;
    ok := FlushFrom(base, cbb, k);
    if ok {
      LengthFlushed(old(cbb.base.parts), old(cbb.base.kinds), k);
      ok := AppendNumber(base, v, width, k);
      assert ok ==> base.Link(k);
    }
  }

  /** Appends the low `width` bytes of `v` to the last builder of the chain. */
  method AppendNumber(base: Buffer, v: nat, width: nat, ghost k: nat) returns (ok: bool)
    requires base.Valid() && |base.chain| == k + 1
    modifies base
    ensures base.chain == old(base.chain) && base.kinds == old(base.kinds)
    ensures ok ==> base.Valid() && base.parts == old(base.parts)[..k] + [old(base.parts)[k] + ToBytes(v, width)]
    ensures !ok ==> base.NoRoom(Length(old(base.parts), old(base.kinds)) + width)
  {
    LayoutLength(base.parts, base.kinds);
    ok := base.Add(width);
    if !ok {
      return;
    }
    var at := base.len - width;
    ghost var before := base.buf[..at];
    var left := base.WriteNumber(at, width, v);
    forall i | 0 <= i < |base.chain|
      ensures base.Link(i)
    {
      assert old(base.Link(i));
    }
    assert base.buf[..base.len] == before + ToBytes(v, width);
    Grow(base, ToBytes(v, width), k);
  }

  /** Records that the last builder has written `more`. */
  ghost method Grow(base: Buffer, more: seq<byte>, k: nat)
    requires base.Sound()
    requires Shape(base.parts, base.kinds) && |base.chain| == |base.parts| == k + 1
    requires forall i {:trigger base.Link(i)} :: 0 <= i < |base.chain| ==> base.Link(i)
    requires base.buf[..base.len] == Layout(base.parts, base.kinds) + more
    modifies base`parts
    ensures base.Valid() && base.parts == old(base.parts)[..k] + [old(base.parts)[k] + more]
  {
    LayoutExtend(base.parts, base.kinds, more);
    ghost var parts := base.parts[..k] + [base.parts[k] + more];
    base.parts := parts;
    forall i | 0 <= i < |base.chain|
      ensures base.Link(i)
    {
      assert old(base.Link(i));
      BeforeSame(parts, base.kinds, old(base.parts), base.kinds, i);
    }
  }

  /** Turns the last `Placeholder(kind)` bytes of the last builder into the pending prefix of a new child. */
  method OpenChild(base: Buffer, cbb: Cbb, out: Cbb, offset: nat, kind: Kind, ghost body: seq<byte>, ghost k: nat)
    requires base.Valid() && |base.chain| == k + 1 && base.chain[k] == cbb && out !in base.chain
    requires Placeholder(kind) > 0
    requires base.parts[k] == body + Zeros(Placeholder(kind)) && offset == base.len - Placeholder(kind)
    modifies base`chain, base`parts, base`kinds, cbb`child, cbb`offset, cbb`pendingLenLen, cbb`pendingIsAsn1, out
    ensures base.Valid() && base.chain == old(base.chain) + [out]
    ensures base.kinds == old(base.kinds) + [kind] && base.parts == old(base.parts)[..k] + [body, []]
    ensures !out.isTopLevel
  {
    ghost var parts, kinds := base.parts[..k] + [body, []], base.kinds + [kind];
    OpenLayout(base.parts, base.kinds, kind, body, parts, kinds);
    assert base.Link(k);
    Adopt(base, cbb, out, offset, kind, k + 1);
    base.chain := base.chain + [out];
    base.kinds := kinds;
    base.parts := parts;
    forall i | 0 <= i <= k + 1
      ensures base.Link(i)
    {
      if i <= k {
        assert old(base.Link(i));
        assert Before(parts, kinds, i) == Before(old(base.parts), old(base.kinds), i);
      }
    }
  }

  /** The new builder shares the buffer and becomes the child that the prefix at `offset` belongs to. */
  method Adopt(base: Buffer, cbb: Cbb, out: Cbb, offset: nat, kind: Kind, ghost level: nat)
    requires cbb != out
    modifies cbb`child, cbb`offset, cbb`pendingLenLen, cbb`pendingIsAsn1, out
    ensures out.base == base && out.child == null && !out.isTopLevel && out.level == level
    ensures cbb.child == out && cbb.offset == offset && cbb.pendingLenLen == Placeholder(kind) && cbb.pendingIsAsn1 == kind.Der?
  {
    out.base, out.offset, out.child := base, 0, null;
    out.pendingLenLen, out.pendingIsAsn1, out.isTopLevel := 0, false, false;
    out.level := level;
    cbb.offset := offset;
    cbb.child := out;
    cbb.pendingLenLen := Placeholder(kind);
    cbb.pendingIsAsn1 := kind.Der?;
  }

  /** The same bytes, with the last of them as a pending prefix. */
  lemma OpenLayout(parts: seq<seq<byte>>, kinds: seq<Kind>, kind: Kind, body: seq<byte>, parts': seq<seq<byte>>, kinds': seq<Kind>)
    requires Shape(parts, kinds) && parts[|kinds|] == body + Zeros(Placeholder(kind))
    requires parts' == parts[..|kinds|] + [body, []] && kinds' == kinds + [kind]
    ensures Layout(parts', kinds') == Layout(parts, kinds)
    ensures Before(parts', kinds', |kinds|) + |body| == |Layout(parts, kinds)| - Placeholder(kind)
    ensures forall i :: 0 <= i <= |kinds| ==> Before(parts', kinds', i) == Before(parts, kinds, i)
  {
    var open := parts[..|kinds|] + [body];
    assert parts' == open + [[]];
    OpenRoom(parts, kinds, open, Zeros(Placeholder(kind)));
    LayoutSnoc(open, kinds, kind, []);
    LayoutLength(parts, kinds);
    forall i | 0 <= i <= |kinds|
      ensures Before(parts', kinds', i) == Before(parts, kinds, i)
    {
      BeforeSame(parts', kinds', parts, kinds, i);
    }
  }

  lemma OpenRoom(parts: seq<seq<byte>>, kinds: seq<Kind>, open: seq<seq<byte>>, room: seq<byte>)
    requires Shape(parts, kinds) && Shape(open, kinds) && parts == open[..|kinds|] + [open[|kinds|] + room]
    ensures Layout(open, kinds) + room + [] == Layout(parts, kinds)
  {
    LayoutExtend(open, kinds, room);
    assert Layout(open, kinds) + room + [] == Layout(open, kinds) + room;
  }

  lemma LayoutSnoc(parts: seq<seq<byte>>, kinds: seq<Kind>, kind: Kind, last: seq<byte>)
    requires Shape(parts, kinds)
    ensures Layout(parts + [last], kinds + [kind]) == Layout(parts, kinds) + Zeros(Placeholder(kind)) + last
  {
    var n := |kinds|;
    assert (parts + [last])[..n + 1] == parts && (kinds + [kind])[..n] == kinds;
  }

  /** A child of level `k` was opened behind `body`. */
  twostate predicate Opened(base: Buffer, new out: Cbb, k: nat, kind: Kind, tag: seq<byte>)
    requires Shape(old(base.parts), old(base.kinds)) && k <= |old(base.kinds)| && |old(base.chain)| == |old(base.parts)|
    reads base
  {
    && base.chain == old(base.chain)[..k + 1] + [out]
    && base.kinds == old(base.kinds)[..k] + [kind]
    && base.parts == old(base.parts)[..k] + [Closed(old(base.parts), old(base.kinds), k) + tag, []]
  }

  /** cbb_add_length_prefixed; `out` may be any builder that is not `cbb` or one of its ancestors. */
  method AddLengthPrefixed(cbb: Cbb, out: Cbb, width: nat, ghost k: nat) returns (ok: bool)
    requires cbb.base != null ==> IsOpen(cbb, k) && out !in cbb.base.chain[..k + 1]
    requires 1 <= width
    modifies cbb.base, Family(cbb)`child, Family(cbb)`offset, Family(cbb)`pendingLenLen, Family(cbb)`pendingIsAsn1, Family(cbb)`base, out
    ensures old(cbb.base) == null ==> !ok
    ensures ok ==> cbb.base == old(cbb.base) && IsOpen(cbb, k) && Opened(cbb.base, out, k, Fixed(width), [])
    ensures !ok && old(cbb.base) != null ==> Refused(old(cbb.base), old(cbb.base.parts), old(cbb.base.kinds), k, width)
    ensures ok ==> AllFit(old(cbb.base.parts), old(cbb.base.kinds), k)
    ensures ok ==> forall j :: k < j < |old(cbb.base.chain)| && old(cbb.base.chain)[j] != out ==> old(cbb.base.chain)[j].base == null
  {
    ok := AddBytes(cbb, Zeros(width), k);
    if ok {
      ghost var body := Closed(old(cbb.base.parts), old(cbb.base.kinds), k);
      assert body + [] == body;
      OpenChild(cbb.base, cbb, out, cbb.base.len - width, Fixed(width), body, k);
    }
  }

  lemma OneByte(v: byte)
    ensures ToBytes(v, 1) == [v]
  {
    assert ToBytes(v / 256, 0) == [];
  }

  /** CBB_add_asn1: the tag now, the length when the child is flushed. */
  method AddAsn1(cbb: Cbb, out: Cbb, tag: nat, ghost k: nat) returns (ok: bool)
    requires cbb.base != null ==> IsOpen(cbb, k) && out !in cbb.base.chain[..k + 1]
    modifies cbb.base, Family(cbb)`child, Family(cbb)`offset, Family(cbb)`pendingLenLen, Family(cbb)`pendingIsAsn1, Family(cbb)`base, out
    ensures old(cbb.base) == null || tag > 255 || tag % 32 == 31 ==> !ok
    ensures ok ==> cbb.base == old(cbb.base) && IsOpen(cbb, k) && Opened(cbb.base, out, k, Der, [tag])
    ensures !ok && old(cbb.base) != null && tag <= 255 && tag % 32 != 31 ==>
              Refused(old(cbb.base), old(cbb.base.parts), old(cbb.base.kinds), k, 2)
    ensures ok ==> AllFit(old(cbb.base.parts), old(cbb.base.kinds), k)
    ensures ok ==> forall j :: k < j < |old(cbb.base.chain)| && old(cbb.base.chain)[j] != out ==> old(cbb.base.chain)[j].base == null
  {
    if tag > 255 {
      return false;
    }
    if tag % 32 == 31 {
      return false;
    }
    ok := OpenTagged(cbb, out, tag, k);
  }

  method OpenTagged(cbb: Cbb, out: Cbb, tag: byte, ghost k: nat) returns (ok: bool)
    requires cbb.base != null ==> IsOpen(cbb, k) && out !in cbb.base.chain[..k + 1]
    modifies cbb.base, Family(cbb)`child, Family(cbb)`offset, Family(cbb)`pendingLenLen, Family(cbb)`pendingIsAsn1, Family(cbb)`base, out
    ensures old(cbb.base) == null ==> !ok
    ensures ok ==> cbb.base == old(cbb.base) && IsOpen(cbb, k) && Opened(cbb.base, out, k, Der, [tag])
    ensures !ok && old(cbb.base) != null ==> Refused(old(cbb.base), old(cbb.base.parts), old(cbb.base.kinds), k, 2)
    ensures ok ==> AllFit(old(cbb.base.parts), old(cbb.base.kinds), k)
    ensures ok ==> forall j :: k < j < |old(cbb.base.chain)| && old(cbb.base.chain)[j] != out ==> old(cbb.base.chain)[j].base == null
  {
    ok := AddTag(cbb, tag, k);
    if !ok {
      return;
    }
    ghost var chain, closed := old(cbb.base.chain), Closed(old(cbb.base.parts), old(cbb.base.kinds), k);
    TagAndRoom(closed, tag);
    OpenChild(cbb.base, cbb, out, cbb.base.len - 1, Der, closed + [tag], k);
    assert cbb.base.Link(k);
    assert forall j :: k < j < |chain| && chain[j] != out ==> chain[j].base == null;
  }

  lemma TagAndRoom(closed: seq<byte>, tag: byte)
    ensures closed + [tag, 0] == closed + [tag] + Zeros(Placeholder(Der))
  {
  }

  /** The tag and one byte for a short length. */
  method AddTag(cbb: Cbb, tag: byte, ghost k: nat) returns (ok: bool)
    requires cbb.base != null ==> IsOpen(cbb, k)
    modifies cbb.base, Family(cbb)`child, Family(cbb)`offset, Family(cbb)`pendingLenLen, Family(cbb)`pendingIsAsn1, Family(cbb)`base
    ensures old(cbb.base) == null ==> !ok
    ensures ok ==> cbb.base == old(cbb.base) && IsOpen(cbb, k) && Extended(cbb.base, k, [tag, 0])
    ensures !ok && old(cbb.base) != null ==> Refused(old(cbb.base), old(cbb.base.parts), old(cbb.base.kinds), k, 2)
    ensures ok ==> AllFit(old(cbb.base.parts), old(cbb.base.kinds), k)
    ensures ok ==> forall j :: k < j < |old(cbb.base.chain)| ==> old(cbb.base.chain)[j].base == null
  {
    OneByte(tag);
    OneByte(0);
    if cbb.base != null {
      cbb.base.Distinct();
    }
    ok := AddU(cbb, tag, 1, k);
    if ok {
      ghost var parts, kinds, chain := cbb.base.parts, cbb.base.kinds, cbb.base.chain;
      AlreadyClosed(parts, kinds);
      LengthClosed(old(cbb.base.parts), old(cbb.base.kinds), k, [tag]);
      assert chain[..k + 1] == chain;
      ok := AddU(cbb, 0, 1, k);
      Twice(old(cbb.base.parts), old(cbb.base.kinds), k, tag, parts);
    }
  }

  lemma Twice(parts: seq<seq<byte>>, kinds: seq<Kind>, k: nat, tag: byte, between: seq<seq<byte>>)
    requires Shape(parts, kinds) && k <= |kinds|
    requires between == parts[..k] + [Closed(parts, kinds, k) + [tag]]
    ensures between[..k] + [between[k] + [0]] == parts[..k] + [Closed(parts, kinds, k) + [tag, 0]]
  {
    assert Closed(parts, kinds, k) + [tag] + [0] == Closed(parts, kinds, k) + [tag, 0];
    assert between[..k] == parts[..k];
  }

  /** CBB_init and CBB_init_fixed: a top-level builder over an empty buffer. */
  method Init(cbb: Cbb, buf: seq<byte>, canResize: bool, allocates: nat -> bool)
    requires |buf| < 0x1_0000_0000_0000_0000
    modifies cbb
    ensures cbb.base != null && fresh(cbb.base) && IsOpen(cbb, 0) && cbb.isTopLevel
    ensures cbb.base.chain == [cbb] && cbb.base.parts == [[]] && cbb.base.kinds == []
    ensures cbb.base.canResize == canResize && cbb.base.buf == buf && cbb.base.capacity == |buf| && cbb.base.allocates == allocates
  {
    var base := new Buffer(buf, canResize, allocates);
    cbb.base, cbb.isTopLevel := base, true;
    cbb.offset, cbb.child, cbb.pendingLenLen, cbb.pendingIsAsn1 := 0, null, 0, false;
    cbb.level := 0;
    base.chain, base.parts, base.kinds := [cbb], [[]], [];
    assert base.Link(0);
  }

  /** CBB_finish: the finished bytes; afterwards the builder is detached. */
  method Finish(cbb: Cbb, wantsResult: bool, ghost k: nat) returns (ok: bool, bytes: seq<byte>)
    requires cbb.base != null ==> IsOpen(cbb, k) && (cbb.isTopLevel ==> k == 0)
    modifies cbb.base, Family(cbb)`child, Family(cbb)`offset, Family(cbb)`pendingLenLen, Family(cbb)`pendingIsAsn1, Family(cbb)`base, cbb
    ensures old(cbb.base) == null ==> !ok
    ensures !ok ==> bytes == []
    ensures ok ==> old(cbb.isTopLevel) && AllFit(old(cbb.base.parts), old(cbb.base.kinds), 0)
                   && bytes == Closed(old(cbb.base.parts), old(cbb.base.kinds), 0)
    ensures ok ==> cbb.base == null
    ensures ok ==> |bytes| < 0x1_0000_0000_0000_0000 && (!old(cbb.base).canResize ==> |bytes| <= old(cbb.base).capacity)
    ensures !ok && old(cbb.base) != null && old(cbb.isTopLevel) && wantsResult ==>
              Refused(old(cbb.base), old(cbb.base.parts), old(cbb.base.kinds), 0, 0)
  {
    bytes := [];
    if !cbb.isTopLevel || cbb.base == null {
      return false, [];
    }
    var base := cbb.base;
    ok := FlushFrom(base, cbb, k);
    if !ok {
      return;
    }
    if base.canResize && !wantsResult {
      return false, [];
    }
    bytes := base.buf[..base.len];
    cbb.base := null;
    cbb.child := null;
  }

  // ---------- one element at a time ----------

  /** Level `k + 1` is open below level `k` and holds `contents`. */
  ghost predicate Writing(base: Buffer, child: Cbb, k: nat, chain: seq<Cbb>, kinds: seq<Kind>, parts: seq<seq<byte>>, contents: seq<byte>)
    requires |chain| == |parts| == k + 1 && |kinds| == k
    reads base, base.chain
  {
    base.Valid() && base.chain == chain + [child] && base.kinds == kinds + [Der] && base.parts == parts + [contents]
  }

  /** CBB_add_asn1 for a fresh child. */
  method OpenElement(base: Buffer, cbb: Cbb, child: Cbb, tag: byte, ghost k: nat, ghost chain: seq<Cbb>, ghost kinds: seq<Kind>,
                     ghost parts: seq<seq<byte>>) returns (ok: bool)
    requires base.Valid() && k < |base.chain| && base.chain[k] == cbb && child !in base.chain
    requires chain == base.chain[..k + 1] && kinds == base.kinds[..k]
    requires parts == base.parts[..k] + [Closed(base.parts, base.kinds, k) + [tag]]
    modifies base, base.chain`child, base.chain`offset, base.chain`pendingLenLen, base.chain`pendingIsAsn1, base.chain`base, child
    ensures ok ==> Writing(base, child, k, chain, kinds, parts, [])
    ensures !ok && IsShortTag(tag) ==> Refused(base, old(base.parts), old(base.kinds), k, 2)
  {
    assert base.Link(k);
    ok := AddAsn1(cbb, child, tag, k);
    assert parts[..k] == old(base.parts)[..k];
    assert ok ==> base.parts == parts + [[]];
  }

  /** Closes the element; its length is now known. */
  method CloseElement(base: Buffer, cbb: Cbb, ghost child: Cbb, ghost k: nat, ghost chain: seq<Cbb>, ghost kinds: seq<Kind>,
                      ghost parts: seq<seq<byte>>, ghost contents: seq<byte>) returns (ok: bool)
    requires |chain| == |parts| == k + 1 && |kinds| == k && Writing(base, child, k, chain, kinds, parts, contents)
    requires chain[k] == cbb
    modifies base, chain`child, chain`offset, chain`pendingLenLen, chain`pendingIsAsn1, chain`base, child
    ensures ok ==> base.Valid() && base.chain == chain && base.kinds == kinds && |contents| <= 0xffff_fffe
    ensures ok ==> base.parts == parts[..k] + [parts[k] + (LengthOctets(|contents|) + contents)]
    ensures !ok ==> |contents| > 0xffff_fffe || base.NoRoom(Length(parts, kinds) + |LengthOctets(|contents|)| + |contents|)
  {
    ghost var all := parts + [contents];
    BeforeSame(all, kinds + [Der], parts, kinds, k);
    ok := FlushFrom(base, cbb, k);
    AlreadyClosed(all, kinds + [Der]);
    CloseStep(all, kinds + [Der], k);
    assert all[..k] == parts[..k] && all[..k + 1] + [contents] == all;
  }

  lemma ElementWritten(before: seq<byte>, tag: byte, contents: seq<byte>)
    requires |contents| < 0x1_0000_0000
    ensures before + [tag] + (LengthOctets(|contents|) + contents) == before + Tlv(tag, contents)
  {
  }
}
