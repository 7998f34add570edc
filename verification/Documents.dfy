/** What a sequence of builder calls describes: a tree of raw bytes, prefixed
    fields and ASN.1 elements. The bytes that come out of the shared buffer are the
    serialisation of that tree. */
module Documents {
  import opened Asn1
  import opened ByteBuilder

  datatype Item =
    | Raw(bytes: seq<byte>)
    | Field(width: nat, items: seq<Item>)
    | Element(tag: byte, items: seq<Item>)

  function Serialise(items: seq<Item>): seq<byte>
    decreases items
  {
    if items == [] then [] else Serialise(items[..|items| - 1]) + SerialiseItem(items[|items| - 1])
  }

  function SerialiseItem(item: Item): seq<byte>
    decreases item
  {
    match item
    case Raw(bytes) => bytes
    case Field(width, items) => var inner := Serialise(items); ToBytes(|inner|, width) + inner
    case Element(tag, items) => var inner := Serialise(items); [tag] + Prefix(Der, |inner|) + inner
  }

  /** Every length in the tree fits its prefix. */
  predicate Sized(items: seq<Item>)
    decreases items
  {
    items != [] ==> Sized(items[..|items| - 1]) && SizedItem(items[|items| - 1])
  }

  predicate SizedItem(item: Item)
    decreases item
  {
    match item
    case Raw(_) => true
    case Field(width, items) => Sized(items) && |Serialise(items)| < Pow256(width)
    case Element(_, items) => Sized(items) && |Serialise(items)| <= 0xffff_fffe
  }

  // ---------- documents under construction ----------

  /** What was opened and not yet closed. */
  datatype Wrapper = WField(width: nat) | WElement(tag: byte)

  datatype Draft = Draft(levels: seq<seq<Item>>, wrappers: seq<Wrapper>)

  predicate Formed(d: Draft) { |d.levels| == |d.wrappers| + 1 }

  function Wrap(w: Wrapper, items: seq<Item>): Item {
    match w
    case WField(width) => Field(width, items)
    case WElement(tag) => Element(tag, items)
  }

  /** The items of level `k` once everything opened behind it is closed. */
  function CloseDraft(d: Draft, k: nat): seq<Item>
    requires Formed(d) && k <= |d.wrappers|
    decreases |d.wrappers| - k
  {
    if k == |d.wrappers| then d.levels[k] else d.levels[k] + [Wrap(d.wrappers[k], CloseDraft(d, k + 1))]
  }

  datatype Op =
    | Write(level: nat, bytes: seq<byte>)
    | Open(level: nat, wrapper: Wrapper)

  /** The effect of one call on the draft; a call on a closed level has none and fails. */
  function Apply(d: Draft, op: Op): (r: Option<Draft>)
    requires Formed(d)
    ensures r.Some? ==> Formed(r.value)
  {
    if op.level > |d.wrappers| then None
    else
      var k, items := op.level, CloseDraft(d, op.level);
      match op
      case Write(_, bytes) => Some(Draft(d.levels[..k] + [items + [Raw(bytes)]], d.wrappers[..k]))
      case Open(_, w) => Some(Draft(d.levels[..k] + [items, []], d.wrappers[..k] + [w]))
  }

  function ApplyAll(ops: seq<Op>): (r: Option<Draft>)
    ensures r.Some? ==> Formed(r.value)
  {
    if ops == [] then Some(Draft([[]], []))
    else match ApplyAll(ops[..|ops| - 1])
      case None => None
      case Some(d) => Apply(d, ops[|ops| - 1])
  }

  // ---------- drafts and builder states ----------

  function KindOf(w: Wrapper): Kind { if w.WField? then Fixed(w.width) else Der }

  function TagOf(w: Wrapper): seq<byte> { if w.WField? then [] else [w.tag] }

  /** Level `i` of the builder holds the serialised items and, before an element, its tag. */
  ghost predicate Holds(parts: seq<seq<byte>>, kinds: seq<Kind>, d: Draft, i: nat)
    requires Shape(parts, kinds) && Formed(d) && |kinds| == |d.wrappers| && i < |parts|
  {
    && Sized(d.levels[i])
    && parts[i] == Serialise(d.levels[i]) + (if i < |kinds| then TagOf(d.wrappers[i]) else [])
    && (i < |kinds| ==> kinds[i] == KindOf(d.wrappers[i]))
  }

  ghost predicate Represents(parts: seq<seq<byte>>, kinds: seq<Kind>, d: Draft) {
    && Shape(parts, kinds) && Formed(d) && |kinds| == |d.wrappers|
    && forall i {:trigger Holds(parts, kinds, d, i)} :: 0 <= i < |parts| ==> Holds(parts, kinds, d, i)
  }

  lemma SerialiseAppend(items: seq<Item>, item: Item)
    ensures Serialise(items + [item]) == Serialise(items) + SerialiseItem(item)
    ensures Sized(items + [item]) == (Sized(items) && SizedItem(item))
  {
    assert (items + [item])[..|items|] == items;
  }

  lemma WrapSerialised(w: Wrapper, items: seq<Item>)
    ensures var s := Serialise(items);
            SerialiseItem(Wrap(w, items)) == TagOf(w) + (Prefix(KindOf(w), |s|) + s)
  {
    var s := Serialise(items);
    if w.WElement? {
      assert [w.tag] + Prefix(Der, |s|) + s == [w.tag] + (Prefix(Der, |s|) + s);
    }
  }

  lemma JoinLevel(items: seq<byte>, tag: seq<byte>, prefix: seq<byte>, inner: seq<byte>)
    ensures items + tag + prefix + inner == items + (tag + (prefix + inner))
  {
  }

  /** Closing the buffer and closing the draft agree. */
  lemma {:induction false} ClosedRepresents(parts: seq<seq<byte>>, kinds: seq<Kind>, d: Draft, k: nat)
    requires Represents(parts, kinds, d) && k <= |kinds|
    ensures Closed(parts, kinds, k) == Serialise(CloseDraft(d, k))
    decreases |kinds| - k
  {
    if k < |kinds| {
      ClosedRepresents(parts, kinds, d, k + 1);
      LevelCloses(parts, kinds, d, k);
    } else {
      LastLevel(parts, kinds, d);
    }
  }

  lemma LevelCloses(parts: seq<seq<byte>>, kinds: seq<Kind>, d: Draft, k: nat)
    requires Represents(parts, kinds, d) && k < |kinds| && Closed(parts, kinds, k + 1) == Serialise(CloseDraft(d, k + 1))
    ensures Closed(parts, kinds, k) == Serialise(CloseDraft(d, k))
  {
    assert Holds(parts, kinds, d, k);
    LevelSerialised(d.levels[k], d.wrappers[k], CloseDraft(d, k + 1), parts[k]);
  }

  lemma LastLevel(parts: seq<seq<byte>>, kinds: seq<Kind>, d: Draft)
    requires Represents(parts, kinds, d)
    ensures Closed(parts, kinds, |kinds|) == Serialise(CloseDraft(d, |kinds|)) && Sized(CloseDraft(d, |kinds|))
  {
    assert Holds(parts, kinds, d, |kinds|);
    assert Serialise(d.levels[|kinds|]) + [] == Serialise(d.levels[|kinds|]);
  }

  lemma LevelSerialised(items: seq<Item>, w: Wrapper, inner: seq<Item>, part: seq<byte>)
    requires part == Serialise(items) + TagOf(w)
    ensures var s := Serialise(inner);
            part + Prefix(KindOf(w), |s|) + s == Serialise(items + [Wrap(w, inner)])
  {
    var s := Serialise(inner);
    SerialiseAppend(items, Wrap(w, inner));
    WrapSerialised(w, inner);
    JoinLevel(Serialise(items), TagOf(w), Prefix(KindOf(w), |s|), s);
  }

  lemma {:induction false} ClosedSized(parts: seq<seq<byte>>, kinds: seq<Kind>, d: Draft, k: nat)
    requires Represents(parts, kinds, d) && k <= |kinds| && AllFit(parts, kinds, k)
    ensures Sized(CloseDraft(d, k))
    decreases |kinds| - k
  {
    if k < |kinds| {
      ClosedSized(parts, kinds, d, k + 1);
      LengthFits(parts, kinds, k);
      LevelFits(parts, kinds, d, k, |Closed(parts, kinds, k + 1)|);
      DraftSized(d, k);
    } else {
      LastLevel(parts, kinds, d);
    }
  }

  lemma LevelFits(parts: seq<seq<byte>>, kinds: seq<Kind>, d: Draft, k: nat, n: nat)
    requires Represents(parts, kinds, d) && k < |kinds| && n == |Closed(parts, kinds, k + 1)| && Fits(kinds[k], n)
    ensures Sized(d.levels[k]) && Fits(KindOf(d.wrappers[k]), |Serialise(CloseDraft(d, k + 1))|)
  {
    LevelKind(parts, kinds, d, k);
    ClosedRepresents(parts, kinds, d, k + 1);
    assert n == |Serialise(CloseDraft(d, k + 1))|;
  }

  lemma LevelKind(parts: seq<seq<byte>>, kinds: seq<Kind>, d: Draft, k: nat)
    requires Represents(parts, kinds, d) && k < |kinds|
    ensures Sized(d.levels[k]) && kinds[k] == KindOf(d.wrappers[k])
  {
    assert Holds(parts, kinds, d, k);
  }

  lemma LengthFits(parts: seq<seq<byte>>, kinds: seq<Kind>, k: nat)
    requires Shape(parts, kinds) && k < |kinds| && AllFit(parts, kinds, k)
    ensures Fits(kinds[k], |Closed(parts, kinds, k + 1)|)
  {
  }

  lemma DraftSized(d: Draft, k: nat)
    requires Formed(d) && k < |d.wrappers| && Sized(d.levels[k]) && Sized(CloseDraft(d, k + 1))
    requires Fits(KindOf(d.wrappers[k]), |Serialise(CloseDraft(d, k + 1))|)
    ensures Sized(CloseDraft(d, k))
  {
    LevelSized(d.levels[k], d.wrappers[k], CloseDraft(d, k + 1));
  }

  lemma LevelSized(items: seq<Item>, w: Wrapper, inner: seq<Item>)
    requires Sized(items) && Sized(inner) && Fits(KindOf(w), |Serialise(inner)|)
    ensures Sized(items + [Wrap(w, inner)])
  {
    SerialiseAppend(items, Wrap(w, inner));
  }

  // ---------- documents that cannot be written ----------

  /** A length of the finished document does not fit its prefix, or the buffer has no room for it. */
  ghost predicate Failing(base: Buffer, d: Draft)
    requires Formed(d)
  {
    !Sized(CloseDraft(d, 0)) || base.NoRoom(|Serialise(CloseDraft(d, 0))|)
  }

  predicate ShortTag(op: Op) {
    op.Open? && op.wrapper.WElement? ==> IsShortTag(op.wrapper.tag)
  }

  predicate AllShort(ops: seq<Op>) {
    forall i :: 0 <= i < |ops| ==> ShortTag(ops[i])
  }

  /** Why a run of calls fails: a closed level, a tag of several octets, or a document that cannot be written. */
  ghost predicate Doomed(base: Buffer, ops: seq<Op>) {
    ApplyAll(ops).None? || !AllShort(ops) || Failing(base, ApplyAll(ops).value)
  }

  /** Lengths that fit in the draft fit in the buffer. */
  lemma {:induction false} SizedFits(parts: seq<seq<byte>>, kinds: seq<Kind>, d: Draft, k: nat)
    requires Represents(parts, kinds, d) && k <= |kinds| && Sized(CloseDraft(d, k))
    ensures AllFit(parts, kinds, k)
    decreases |kinds| - k
  {
    if k < |kinds| {
      assert Holds(parts, kinds, d, k);
      var w, inner := d.wrappers[k], CloseDraft(d, k + 1);
      SerialiseAppend(d.levels[k], Wrap(w, inner));
      SizedFits(parts, kinds, d, k + 1);
      ClosedRepresents(parts, kinds, d, k + 1);
    }
  }

  /** While lengths are pending, the buffer is no longer than in the end. */
  lemma {:induction false} ExtentBelow(parts: seq<seq<byte>>, kinds: seq<Kind>, k: nat)
    requires Shape(parts, kinds) && k <= |kinds| && AllFit(parts, kinds, 0)
    ensures AllFit(parts, kinds, k) && Extent(parts, kinds, k) <= Extent(parts, kinds, 0)
  {
    if k > 0 {
      ExtentBelow(parts, kinds, k - 1);
      ExtentGrows(parts, kinds, k - 1);
    }
  }

  lemma LengthBelow(base: Buffer, parts: seq<seq<byte>>, kinds: seq<Kind>, d: Draft)
    requires Represents(parts, kinds, d) && base.NoRoom(Length(parts, kinds))
    ensures Failing(base, d)
  {
    if Sized(CloseDraft(d, 0)) {
      SizedFits(parts, kinds, d, 0);
      ExtentBelow(parts, kinds, |kinds|);
      AlreadyClosed(parts, kinds);
      ClosedRepresents(parts, kinds, d, 0);
    }
  }

  /** More in the last open level is more in the whole document. */
  predicate Below(a: seq<Item>, b: seq<Item>) {
    Sized(b) ==> Sized(a) && |Serialise(a)| <= |Serialise(b)|
  }

  lemma PrefixGrows(kind: Kind, a: nat, b: nat)
    requires a <= b && Fits(kind, b)
    ensures Fits(kind, a) && |Prefix(kind, a)| <= |Prefix(kind, b)|
  {
  }

  lemma BelowInside(items: seq<Item>, w: Wrapper, a: seq<Item>, b: seq<Item>)
    requires Below(a, b)
    ensures Below(items + [Wrap(w, a)], items + [Wrap(w, b)])
  {
    SerialiseAppend(items, Wrap(w, a));
    SerialiseAppend(items, Wrap(w, b));
    WrapSerialised(w, a);
    WrapSerialised(w, b);
    if SizedItem(Wrap(w, b)) {
      PrefixGrows(KindOf(w), |Serialise(a)|, |Serialise(b)|);
    }
  }

  lemma BelowLonger(items: seq<Item>, item: Item)
    ensures Below(items, items + [item])
  {
    SerialiseAppend(items, item);
  }

  /** Calls only add to the document. */
  lemma {:induction false} ApplyAdds(d: Draft, op: Op, j: nat)
    requires Formed(d) && Apply(d, op).Some? && j <= op.level
    ensures Below(CloseDraft(d, j), CloseDraft(Apply(d, op).value, j))
    decreases op.level - j
  {
    var d', k := Apply(d, op).value, op.level;
    if j == k {
      if op.Write? {
        BelowLonger(CloseDraft(d, k), Raw(op.bytes));
      } else {
        assert CloseDraft(d', k + 1) == [];
        BelowLonger(CloseDraft(d, k), Wrap(op.wrapper, []));
      }
    } else {
      ApplyAdds(d, op, j + 1);
      BelowInside(d.levels[j], d.wrappers[j], CloseDraft(d, j + 1), CloseDraft(d', j + 1));
    }
  }

  lemma DoomedNext(base: Buffer, before: seq<Op>, op: Op)
    requires Doomed(base, before)
    ensures Doomed(base, before + [op])
  {
    var more, i := before + [op], |before|;
    assert more[..i] == before && more[i] == op && forall j :: 0 <= j < i ==> more[j] == before[j];
    if ApplyAll(before).Some? && Apply(ApplyAll(before).value, op).Some? {
      ApplyAdds(ApplyAll(before).value, op, 0);
    }
  }

  /** What dooms a run dooms every longer one. */
  lemma {:induction false} DoomedStays(base: Buffer, ops: seq<Op>, i: nat)
    requires i <= |ops| && Doomed(base, ops[..i])
    ensures Doomed(base, ops)
    decreases |ops| - i
  {
    if i == |ops| {
      assert ops[..i] == ops;
    } else {
      DoomedNext(base, ops[..i], ops[i]);
      assert ops[..i + 1] == ops[..i] + [ops[i]];
      DoomedStays(base, ops, i + 1);
    }
  }

  /** A refused write: the document it would belong to cannot be written. */
  lemma WriteFailing(base: Buffer, parts: seq<seq<byte>>, kinds: seq<Kind>, d: Draft, k: nat, bytes: seq<byte>)
    requires Represents(parts, kinds, d) && k <= |kinds| && Refused(base, parts, kinds, k, |bytes|)
    ensures Failing(base, Apply(d, Write(k, bytes)).value)
  {
    if AllFit(parts, kinds, k) {
      WriteRepresents(parts, kinds, d, k, bytes);
      LengthClosed(parts, kinds, k, bytes);
      LengthBelow(base, parts[..k] + [Closed(parts, kinds, k) + bytes], kinds[..k], Apply(d, Write(k, bytes)).value);
    } else {
      MisfitFailing(base, parts, kinds, d, Write(k, bytes));
    }
  }

  lemma OpenFailing(base: Buffer, parts: seq<seq<byte>>, kinds: seq<Kind>, d: Draft, k: nat, w: Wrapper)
    requires Represents(parts, kinds, d) && k <= |kinds|
    requires Refused(base, parts, kinds, k, |TagOf(w)| + Placeholder(KindOf(w)))
    ensures Failing(base, Apply(d, Open(k, w)).value)
  {
    if AllFit(parts, kinds, k) {
      OpenRepresents(parts, kinds, d, k, w);
      LengthClosed(parts, kinds, k, TagOf(w));
      var closed := parts[..k] + [Closed(parts, kinds, k) + TagOf(w)];
      LengthSnoc(closed, kinds[..k], KindOf(w), []);
      assert closed + [[]] == parts[..k] + [Closed(parts, kinds, k) + TagOf(w), []];
      LengthBelow(base, closed + [[]], kinds[..k] + [KindOf(w)], Apply(d, Open(k, w)).value);
    } else {
      MisfitFailing(base, parts, kinds, d, Open(k, w));
    }
  }

  /** A length that does not fit now never will. */
  lemma MisfitFailing(base: Buffer, parts: seq<seq<byte>>, kinds: seq<Kind>, d: Draft, op: Op)
    requires Represents(parts, kinds, d) && op.level <= |kinds| && !AllFit(parts, kinds, op.level)
    ensures Failing(base, Apply(d, op).value)
  {
    if Sized(CloseDraft(Apply(d, op).value, 0)) {
      ApplyAdds(d, op, 0);
      SizedFits(parts, kinds, d, 0);
      ExtentBelow(parts, kinds, op.level);
    }
  }

  // ---------- running the calls ----------

  lemma WriteRepresents(parts: seq<seq<byte>>, kinds: seq<Kind>, d: Draft, k: nat, bytes: seq<byte>)
    requires Represents(parts, kinds, d) && k <= |kinds| && AllFit(parts, kinds, k)
    ensures Represents(parts[..k] + [Closed(parts, kinds, k) + bytes], kinds[..k], Apply(d, Write(k, bytes)).value)
  {
    ClosedRepresents(parts, kinds, d, k);
    ClosedSized(parts, kinds, d, k);
    var items := CloseDraft(d, k);
    SerialiseAppend(items, Raw(bytes));
    var d' := Draft(d.levels[..k] + [items + [Raw(bytes)]], d.wrappers[..k]);
    var parts', kinds' := parts[..k] + [Closed(parts, kinds, k) + bytes], kinds[..k];
    forall i | 0 <= i < |parts'|
      ensures Holds(parts', kinds', d', i)
    {
      if i < k {
        assert Holds(parts, kinds, d, i);
      }
    }
  }

  lemma OpenRepresents(parts: seq<seq<byte>>, kinds: seq<Kind>, d: Draft, k: nat, w: Wrapper)
    requires Represents(parts, kinds, d) && k <= |kinds| && AllFit(parts, kinds, k)
    ensures Represents(parts[..k] + [Closed(parts, kinds, k) + TagOf(w), []], kinds[..k] + [KindOf(w)], Apply(d, Open(k, w)).value)
  {
    ClosedRepresents(parts, kinds, d, k);
    ClosedSized(parts, kinds, d, k);
    var d' := Draft(d.levels[..k] + [CloseDraft(d, k), []], d.wrappers[..k] + [w]);
    var parts', kinds' := parts[..k] + [Closed(parts, kinds, k) + TagOf(w), []], kinds[..k] + [KindOf(w)];
    assert Serialise([]) + [] == [];
    forall i | 0 <= i < |parts'|
      ensures Holds(parts', kinds', d', i)
    {
      if i < k {
        assert Holds(parts, kinds, d, i);
      }
    }
  }

  predicate ValidOp(op: Op) {
    op.Open? && op.wrapper.WField? ==> 1 <= op.wrapper.width <= 3
  }

  /** CBB_add_bytes at some level of a draft. */
  method PerformWrite(base: Buffer, open: seq<Cbb>, k: nat, bytes: seq<byte>, ghost d: Draft) returns (ok: bool)
    requires base.Valid() && base.chain == open && Represents(base.parts, base.kinds, d) && k < |open|
    modifies base, open`child, open`offset, open`pendingLenLen, open`pendingIsAsn1, open`base
    ensures ok ==> base.Valid() && base.chain == open[..k + 1]
    ensures ok ==> Represents(base.parts, base.kinds, Apply(d, Write(k, bytes)).value)
    ensures !ok ==> Failing(base, Apply(d, Write(k, bytes)).value)
  {
    ghost var parts, kinds := base.parts, base.kinds;
    assert base.Link(k);
    ok := AddBytes(open[k], bytes, k);
    if ok {
      WriteRepresents(parts, kinds, d, k, bytes);
    } else {
      WriteFailing(base, parts, kinds, d, k, bytes);
    }
  }

  /** Opening a field or an element at some level of a draft. */
  method PerformOpen(base: Buffer, open: seq<Cbb>, k: nat, w: Wrapper, ghost d: Draft) returns (ok: bool, out: Cbb)
    requires base.Valid() && base.chain == open && Represents(base.parts, base.kinds, d) && k < |open|
    requires w.WField? ==> 1 <= w.width
    modifies base, open`child, open`offset, open`pendingLenLen, open`pendingIsAsn1, open`base
    ensures fresh(out)
    ensures ok ==> base.Valid() && base.chain == open[..k + 1] + [out]
    ensures ok ==> Represents(base.parts, base.kinds, Apply(d, Open(k, w)).value) && ShortTag(Open(k, w))
    ensures !ok ==> !ShortTag(Open(k, w)) || Failing(base, Apply(d, Open(k, w)).value)
  {
    ghost var parts, kinds := base.parts, base.kinds;
    assert base.Link(k);
    out := new Cbb();
    if w.WField? {
      ok := AddLengthPrefixed(open[k], out, w.width, k);
    } else {
      ok := AddAsn1(open[k], out, w.tag, k);
    }
    if ok {
      OpenRepresents(parts, kinds, d, k, w);
    } else if ShortTag(Open(k, w)) {
      OpenFailing(base, parts, kinds, d, k, w);
    }
  }

  /** One call on the builder at the op's level. */
  method Perform(base: Buffer, open: seq<Cbb>, op: Op, ghost d: Draft) returns (ok: bool, open': seq<Cbb>)
    requires base.Valid() && base.chain == open && Represents(base.parts, base.kinds, d)
    requires op.level < |open| && ValidOp(op)
    modifies base, open`child, open`offset, open`pendingLenLen, open`pendingIsAsn1, open`base
    ensures Apply(d, op).Some?
    ensures ok ==> base.Valid() && base.chain == open' && ShortTag(op)
    ensures !ok ==> !ShortTag(op) || Failing(base, Apply(d, op).value)
    ensures ok ==> Represents(base.parts, base.kinds, Apply(d, op).value)
    ensures |open'| > 0 && open'[0] == open[0] && forall i :: 0 <= i < |open'| ==> open'[i] in open || fresh(open'[i])
  {
    var k := op.level;
    open' := open[..k + 1];
    if op.Write? {
      ok := PerformWrite(base, open, k, op.bytes, d);
    } else {
      var out;
      ok, out := PerformOpen(base, open, k, op.wrapper, d);
      open' := open' + [out];
    }
  }

  /** The builders stand for the draft that the calls so far describe. */
  ghost predicate Running(base: Buffer, open: seq<Cbb>, before: seq<Op>, d: Draft)
    reads base, base.chain
  {
    base.Valid() && base.chain == open && |open| > 0 && Represents(base.parts, base.kinds, d)
    && ApplyAll(before) == Some(d) && AllShort(before)
  }

  lemma AllShortNext(before: seq<Op>, op: Op)
    requires AllShort(before) && ShortTag(op)
    ensures AllShort(before + [op])
  {
  }

  /** The next call. */
  method PerformNext(base: Buffer, open: seq<Cbb>, op: Op, ghost before: seq<Op>, ghost d: Draft)
      returns (ok: bool, open': seq<Cbb>, ghost d': Draft)
    requires ValidOp(op) && Running(base, open, before, d)
    modifies base, open`child, open`offset, open`pendingLenLen, open`pendingIsAsn1, open`base
    ensures ok ==> Running(base, open', before + [op], d')
    ensures !ok ==> Doomed(base, before + [op])
    ensures |open'| > 0 && open'[0] == open[0] && forall i :: 0 <= i < |open'| ==> open'[i] in open || fresh(open'[i])
  {
    ghost var ops := before + [op];
    assert ops[..|before|] == before && ops[|before|] == op;
    d' := d;
    if op.level >= |open| {
      return false, open, d;
    }
    ok, open' := Perform(base, open, op, d);
    if ok {
      d' := Apply(d, op).value;
      AllShortNext(before, op);
    }
  }

  /** The calls in order, until one fails; a call on a closed level fails. */
  method PerformAll(base: Buffer, top: Cbb, ops: seq<Op>) returns (ok: bool, ghost d: Draft)
    requires base.Valid() && base.chain == [top] && base.parts == [[]] && base.kinds == [] && top.isTopLevel
    requires forall i :: 0 <= i < |ops| ==> ValidOp(ops[i])
    modifies base, top`child, top`offset, top`pendingLenLen, top`pendingIsAsn1, top`base
    ensures ok ==> Running(base, base.chain, ops, d) && base.chain[0] == top
    ensures ok ==> forall c :: c in base.chain ==> c == top || fresh(c)
    ensures !ok ==> Doomed(base, ops)
  {
    var open := [top];
    d := Draft([[]], []);
    assert Serialise([]) + [] == [] && Holds(base.parts, base.kinds, d, 0);
    for i := 0 to |ops|
      invariant Running(base, open, ops[..i], d) && open[0] == top
      invariant forall j :: 0 <= j < |open| ==> open[j] == top || fresh(open[j])
    {
      assert ops[..i] + [ops[i]] == ops[..i + 1];
      ok, open, d := PerformNext(base, open, ops[i], ops[..i], d);
      if !ok {
        DoomedStays(base, ops, i + 1);
        return;
      }
    }
    assert ops[..|ops|] == ops;
    ok := true;
  }

  /** The calls describe a document whose tags take one octet and whose lengths fit, of at most `limit` bytes. */
  ghost predicate Writable(ops: seq<Op>, limit: nat) {
    ApplyAll(ops).Some? && AllShort(ops)
    && var doc := CloseDraft(ApplyAll(ops).value, 0); Sized(doc) && |Serialise(doc)| <= limit
  }

  /** Any run of calls, whatever levels they address, followed by CBB_finish yields the serialisation of the described
      document; in a fixed buffer it succeeds exactly when the document can be written and fits the buffer, in one that
      grows exactly when it can be written at all, given memory. */
  method Build(ops: seq<Op>, buf: seq<byte>, canResize: bool, allocates: nat -> bool) returns (ok: bool, bytes: seq<byte>)
    requires |buf| < 0x1_0000_0000_0000_0000
    requires forall i :: 0 <= i < |ops| ==> ValidOp(ops[i])
    ensures ok ==> ApplyAll(ops).Some?
    ensures ok ==> var doc := CloseDraft(ApplyAll(ops).value, 0);
                   bytes == Serialise(doc) && Sized(doc)
    ensures !canResize ==> (ok <==> Writable(ops, |buf|))
    ensures canResize && Ample(allocates) ==> (ok <==> Writable(ops, 0xffff_ffff_ffff_ffff))
  {
    var top := new Cbb();
    Init(top, buf, canResize, allocates);
    var base := top.base;
    bytes := [];
    ghost var d;
    ok, d := PerformAll(base, top, ops);
    if !ok {
      return;
    }
    ghost var parts, kinds := base.parts, base.kinds;
    assert base.Link(0);
    ok, bytes := Finish(top, true, 0);
    ClosedRepresents(parts, kinds, d, 0);
    if ok {
      ClosedSized(parts, kinds, d, 0);
    } else {
      FinishFailing(base, parts, kinds, d);
    }
  }

  lemma FinishFailing(base: Buffer, parts: seq<seq<byte>>, kinds: seq<Kind>, d: Draft)
    requires Represents(parts, kinds, d) && Refused(base, parts, kinds, 0, 0)
    ensures Failing(base, d)
  {
    if AllFit(parts, kinds, 0) {
      ClosedRepresents(parts, kinds, d, 0);
    } else if Sized(CloseDraft(d, 0)) {
      SizedFits(parts, kinds, d, 0);
    }
  }
}
