/** cbs_convert_indefinite of ssl/bs_ber.c: relaxed BER in, DER out. */
module BerConverter {
  import opened Asn1
  import opened ByteReader
  import opened ByteBuilder
  import opened BerTrees

  const MAX_DEPTH := 2048

  /** The last builder has written `more` and nothing else changed in the chain. */
  twostate predicate Wrote(base: Buffer, k: nat, more: seq<byte>)
    requires k < |old(base.parts)|
    reads base
  {
    && base.chain == old(base.chain) && base.kinds == old(base.kinds)
    && base.parts == old(base.parts)[..k] + [old(base.parts)[k] + more]
  }

  // ---------- what the relaxed reader saw ----------

  /** A definite element that was read is the encoding of its tag and contents. */
  lemma DefiniteRead(d: seq<byte>, e: Element)
    requires ReadElement(d, false) == Some(e) && !(e.total == 2 && d[1] == 0x80)
    ensures IsShortTag(e.tag) && e.total - e.header < 0x1_0000_0000
    ensures d == Definite(e.tag, d[e.header..e.total]) + d[e.total..]
    ensures e.total == e.header ==> e.header == 2 && d[1] == 0
  {
    RelaxedReader(d);
    ReaderThenWriter(d);
  }

  /** What peeking at the first child of an indefinite element finds. */
  lemma PeekFirst(kids: seq<Ber>, rest: seq<byte>)
    requires AllBer(kids)
    ensures var r := ReadElement(Encode(kids) + EOC + rest, false);
            && r.Some?
            && (kids == [] ==> r.value.total == r.value.header)
            && (kids != [] ==> r.value.tag == kids[0].tag
                               && (r.value.total > r.value.header <==> !kids[0].Indef? && Contents(kids[0]) != []))
  {
    var d := Encode(kids) + EOC + rest;
    if kids == [] {
      assert d == EOC + rest;
    } else {
      var e, tail := kids[0], Encode(kids[1..]) + EOC + rest;
      assert d == EncodeOne(e) + tail;
      if !e.Indef? {
        WriterThenReader(e.tag, Contents(e), tail, false);
      }
    }
  }

  // ---------- what can be converted ----------

  /** Nowhere nested too deep, and no contents of the output too long for their length octets. */
  predicate Convertible(es: seq<Ber>, squash: bool, depth: nat)
    decreases es
  {
    depth <= 2048 && forall i :: 0 <= i < |es| ==> ConvertibleOne(es[i], squash, depth)
  }

  predicate ConvertibleOne(e: Ber, squash: bool, depth: nat)
    decreases e
  {
    match e
    case Prim(_, bytes) => squash || |bytes| <= 0xffff_fffe
    case Cons(_, kids) => Convertible(kids, false, depth + 1) && (squash || |Output(kids, false)| <= 0xffff_fffe)
    case Indef(tag, kids) =>
      var q := Squashes(tag, kids);
      Convertible(kids, q, depth + 1) && (squash || |Output(kids, q)| <= 0xffff_fffe)
  }

  /** The bytes are these elements, up to an end-of-contents or the end. */
  ghost predicate IsList(d: seq<byte>, es: seq<Ber>, eoc: bool, rest: seq<byte>) {
    AllBer(es) && d == Encode(es) + (if eoc then EOC else []) + rest && (eoc || rest == [])
  }

  /** Elements that were converted. */
  ghost predicate Taken(es: seq<Ber>, squash: bool, depth: nat) {
    Convertible(es, squash, depth) && (!squash ==> AllTrees(Meanings(es)))
  }

  ghost predicate IsOne(d: seq<byte>, e: Ber, rest: seq<byte>) {
    IsBer(e) && d == EncodeOne(e) + rest
  }

  /** An element is readable, and an end-of-contents is. */
  lemma Readable(d: seq<byte>, e: Ber, rest: seq<byte>)
    requires IsOne(d, e, rest)
    ensures ReadElement(d, false).Some?
  {
    if !e.Indef? {
      WriterThenReader(e.tag, Contents(e), rest, false);
    }
  }

  /** What a piece says about the element it is read from. */
  lemma PieceOf(d: seq<byte>, p: Piece, left: seq<byte>, e: Ber, rest: seq<byte>)
    requires IsPiece(p) && d == PieceBytes(p) + left && IsOne(d, e, rest)
    ensures !p.End?
    ensures p.Start? ==> e.Indef? && e.tag == p.tag && left == Encode(e.kids) + EOC + rest
    ensures p.Whole? ==> !e.Indef? && e.tag == p.tag && Contents(e) == p.contents && left == rest
  {
    FirstBytes(e, rest);
    match p
    case End =>
    case Start(tag) =>
      assert d[0] == tag && d[1] == 0x80;
      IndefiniteSplit(e, rest);
      assert d[2..] == left;
      assert Encode(e.kids) + (EOC + rest) == Encode(e.kids) + EOC + rest;
    case Whole(tag, contents) =>
      WriterThenReader(tag, contents, left, false);
      assert d[1] == LengthOctets(|contents|)[0] != 0x80;
      WriterThenReader(e.tag, Contents(e), rest, false);
  }

  /** The list behind its first element. */
  lemma ListStep(d: seq<byte>, es: seq<Ber>, eoc: bool, rest: seq<byte>)
    requires IsList(d, es, eoc, rest) && es != []
    ensures IsOne(d, es[0], Encode(es[1..]) + (if eoc then EOC else []) + rest)
    ensures IsList(Encode(es[1..]) + (if eoc then EOC else []) + rest, es[1..], eoc, rest)
  {
  }

  /** The element read is the first of the list. */
  lemma ListRead(d: seq<byte>, es: seq<Ber>, eoc: bool, rest: seq<byte>, e: Ber, left: seq<byte>)
    requires IsList(d, es, eoc, rest) && IsOne(d, e, left)
    ensures es != [] && es[0] == e && IsList(left, es[1..], eoc, rest)
  {
    FirstBytes(e, left);
    if es != [] {
      ListStep(d, es, eoc, rest);
      OneUnique(e, es[0], left, Encode(es[1..]) + (if eoc then EOC else []) + rest);
    }
  }

  // ---------- the converter ----------

  /** The three things the loop can find. */
  datatype Piece = End | Start(tag: byte) | Whole(tag: byte, contents: seq<byte>)

  ghost function PieceBytes(p: Piece): seq<byte> {
    match p
    case End => EOC
    case Start(tag) => [tag, 0x80]
    case Whole(tag, contents) => Definite(tag, contents)
  }

  predicate IsPiece(p: Piece) {
    match p
    case End => true
    case Start(tag) => IsShortTag(tag) && IsConstructed(tag)
    case Whole(tag, contents) => IsShortTag(tag) && |contents| < 0x1_0000_0000 && !(tag == 0 && contents == [])
  }

  /** Reads an element header, or a whole definite element, and classifies it. */
  method ReadPiece(input: Cbs) returns (ok: bool, p: Piece)
    modifies input
    ensures ok ==> IsPiece(p) && old(input.data) == PieceBytes(p) + input.data && |input.data| < old(|input.data|)
    ensures ok && p.Whole? ==> |p.contents| < old(|input.data|)
    ensures !ok ==> ReadElement(old(input.data), false).None?
  {
    p := End;
    ghost var d := input.data;
    var e, bytes;
    ok, e, bytes := input.GetAnyElement(false);
    if !ok {
      return;
    }
    if |bytes| == e.header {
      if e.header == 2 && bytes == [0, 0] {
        assert d == EOC + input.data;
        return;
      }
      if e.header > 0 && bytes[e.header - 1] == 0x80 {
        RelaxedReader(d);
        p := Start(e.tag);
        assert d == [e.tag, 0x80] + input.data;
        return;
      }
    }
    DefiniteRead(d, e);
    p := Whole(e.tag, bytes[e.header..]);
    assert bytes[e.header..] == d[e.header..e.total];
    assert p.tag == 0 && p.contents == [] ==> bytes == [0, 0];
  }

  /** Converts one element, or stops at an end-of-contents; `c` is an element that the input may begin with. */
  method ConvertOne(input: Cbs, base: Buffer, out: Cbb, squash: bool, eoc: bool, depth: nat, ghost k: nat, ghost c: Ber, ghost rest: seq<byte>)
    returns (ok: bool, stop: bool, ghost e: Ber)
    requires base.Valid() && |base.chain| == k + 1 && base.chain[k] == out
    modifies input, base, base.chain`child, base.chain`offset, base.chain`pendingLenLen, base.chain`pendingIsAsn1, base.chain`base
    ensures ok ==> base.Valid() && |input.data| < old(|input.data|)
    ensures ok && stop ==> eoc && Wrote(base, k, []) && old(input.data) == EOC + input.data
    ensures ok && !stop ==> IsBer(e) && Wrote(base, k, OutputOne(e, squash)) && old(input.data) == EncodeOne(e) + input.data
    ensures ok && !stop ==> ConvertibleOne(e, squash, depth) && (!squash ==> IsTree(Meaning(e)))
    ensures !ok && IsOne(old(input.data), c, rest) ==> Hopeless(base, old(base.parts), old(base.kinds), c, squash, depth)
    ensures !ok ==> !eoc || !(EOC <= old(input.data))
    decreases |input.data|, 2
  {
    e := Prim(1, []);
    stop := false;
    var p;
    ok, p := ReadPiece(input);
    if !ok {
      Unreadable(old(input.data), c, rest);
      return;
    }
    Classified(old(input.data), p, input.data, c, rest);
    if p.End? {
      ok, stop := eoc, true;
      assert base.parts[k] + [] == base.parts[k];
    } else {
      ok, e := ConvertPiece(input, base, out, p, squash, depth, k, c, rest);
      if ok {
        PieceJoins(old(input.data), p, e);
      }
    }
  }

  /** What is behind the start of an element when the element is `e`. */
  ghost predicate PieceIs(p: Piece, e: Ber, before: seq<byte>, after: seq<byte>) {
    match p
    case End => false
    case Start(tag) => e.Indef? && e.tag == tag && before == Encode(e.kids) + EOC + after
    case Whole(tag, contents) => !e.Indef? && e.tag == tag && Contents(e) == contents && before == after
  }

  lemma PieceJoins(d: seq<byte>, p: Piece, e: Ber)
    ensures forall before, after :: d == PieceBytes(p) + before && PieceIs(p, e, before, after) ==> d == EncodeOne(e) + after
  {
    forall before, after | d == PieceBytes(p) + before && PieceIs(p, e, before, after)
      ensures d == EncodeOne(e) + after
    {
      if p.Start? {
        assert [p.tag, 0x80] + (Encode(e.kids) + EOC + after) == EncodeOne(e) + after;
      }
    }
  }

  /** The rest of an element whose beginning was read. */
  method ConvertPiece(input: Cbs, base: Buffer, out: Cbb, p: Piece, squash: bool, depth: nat, ghost k: nat, ghost c: Ber, ghost rest: seq<byte>)
    returns (ok: bool, ghost e: Ber)
    requires base.Valid() && |base.chain| == k + 1 && base.chain[k] == out && IsPiece(p) && !p.End?
    modifies input, base, base.chain`child, base.chain`offset, base.chain`pendingLenLen, base.chain`pendingIsAsn1, base.chain`base
    ensures ok ==> base.Valid() && |input.data| <= old(|input.data|)
    ensures ok ==> IsBer(e) && Wrote(base, k, OutputOne(e, squash)) && PieceIs(p, e, old(input.data), input.data)
    ensures ok ==> ConvertibleOne(e, squash, depth) && (!squash ==> IsTree(Meaning(e)))
    ensures !ok && IsBer(c) && PieceIs(p, c, old(input.data), rest) ==> Hopeless(base, old(base.parts), old(base.kinds), c, squash, depth)
    decreases if p.Whole? then |p.contents| else |input.data|, 9
  {
    match p
    case Start(tag) =>
      ghost var kids;
      ok, kids := ConvertIndefinite(input, base, out, tag, squash, depth, k, if c.Prim? then [] else c.kids, rest);
      e := Indef(tag, kids);
    case Whole(tag, contents) =>
      ok, e := ConvertDefinite(contents, base, out, tag, squash, depth, k, c);
  }

  /** What was read against an element that the input may begin with. */
  lemma Classified(d: seq<byte>, p: Piece, left: seq<byte>, c: Ber, rest: seq<byte>)
    requires IsPiece(p) && d == PieceBytes(p) + left
    ensures IsOne(d, c, rest) ==> PieceIs(p, c, left, rest)
    ensures EOC <= d ==> p.End?
  {
    if IsOne(d, c, rest) {
      PieceOf(d, p, left, c, rest);
    }
    if EOC <= d {
      assert d[0] == 0 && d[1] == 0;
      assert PieceBytes(p)[1] == d[1] && PieceBytes(p)[0] == d[0];
    }
  }

  /** The element cannot be converted, or its output would not have fitted. */
  ghost predicate Hopeless(base: Buffer, parts: seq<seq<byte>>, kinds: seq<Kind>, c: Ber, squash: bool, depth: nat)
    requires Shape(parts, kinds)
  {
    !ConvertibleOne(c, squash, depth) || Overfull(base, parts, kinds, OutputOne(c, squash))
  }

  /** The output would not have fitted behind what is in the buffer. */
  ghost predicate Overfull(base: Buffer, parts: seq<seq<byte>>, kinds: seq<Kind>, more: seq<byte>)
    requires Shape(parts, kinds)
  {
    base.NoRoom(Length(parts, kinds) + |more|)
  }

  /** Nothing begins here. */
  lemma Unreadable(d: seq<byte>, c: Ber, rest: seq<byte>)
    requires ReadElement(d, false).None?
    ensures !IsOne(d, c, rest) && !(EOC <= d)
  {
    if IsOne(d, c, rest) {
      Readable(d, c, rest);
    }
  }

  /** Between two rounds: `es` was read of `all` and its output written behind `before`; `left` are the other elements,
      if `all` is the list `cs`. */
  ghost predicate Reading(base: Buffer, input: Cbs, before: seq<seq<byte>>, kinds: seq<Kind>, chain: seq<Cbb>, k: nat, all: seq<byte>,
                          es: seq<Ber>, squash: bool, depth: nat)
    requires |before| == k + 1
    reads base, base.chain, input
  {
    && base.Valid() && base.chain == chain && base.kinds == kinds && base.parts == before[..k] + [before[k] + Output(es, squash)]
    && AllBer(es) && all == Encode(es) + input.data && Taken(es, squash, depth)
  }

  ghost predicate Ahead(all: seq<byte>, cs: seq<Ber>, eoc: bool, rest: seq<byte>, es: seq<Ber>, left: seq<Ber>, data: seq<byte>) {
    IsList(all, cs, eoc, rest) ==> cs == es + left && IsList(data, left, eoc, rest)
  }

  /** cbs_convert_indefinite: the loop. Each round leaves less input; `cs` is a list that the input may be. */
  method Convert(input: Cbs, base: Buffer, out: Cbb, squash: bool, eoc: bool, depth: nat, ghost k: nat, ghost cs: seq<Ber>, ghost rest: seq<byte>)
    returns (ok: bool, ghost es: seq<Ber>)
    requires base.Valid() && |base.chain| == k + 1 && base.chain[k] == out
    modifies input, base, base.chain`child, base.chain`offset, base.chain`pendingLenLen, base.chain`pendingIsAsn1, base.chain`base
    ensures ok ==> base.Valid() && |input.data| <= old(|input.data|)
    ensures ok ==> IsList(old(input.data), es, eoc, input.data) && Taken(es, squash, depth) && Wrote(base, k, Output(es, squash))
    ensures !ok && IsList(old(input.data), cs, eoc, rest) ==> AllHopeless(base, old(base.parts), old(base.kinds), cs, squash, depth)
    decreases |input.data|, 4
  {
    es := [];
    if depth > MAX_DEPTH {
      return false, es;
    }
    ghost var all, left := input.data, cs;
    assert base.parts[k] + Output(es, squash) == base.parts[k];
    while |input.data| > 0
      invariant Reading(base, input, old(base.parts), old(base.kinds), old(base.chain), k, all, es, squash, depth)
      invariant |input.data| <= |all| && Ahead(all, cs, eoc, rest, es, left, input.data)
      decreases |input.data|
    {
      var stop;
      ok, stop, es, left := Round(input, base, out, squash, eoc, depth, k, cs, rest, all, old(base.parts), old(base.kinds), old(base.chain), es, left);
      if !ok || stop {
        return;
      }
    }
    ok := !eoc;
    assert Encode(es) + [] + [] == Encode(es) + [];
  }

  /** Some element of the list cannot be converted, or the output would not have fitted. */
  ghost predicate AllHopeless(base: Buffer, parts: seq<seq<byte>>, kinds: seq<Kind>, cs: seq<Ber>, squash: bool, depth: nat)
    requires Shape(parts, kinds)
  {
    !Convertible(cs, squash, depth) || Overfull(base, parts, kinds, Output(cs, squash))
  }

  /** One round of the loop. */
  method Round(input: Cbs, base: Buffer, out: Cbb, squash: bool, eoc: bool, depth: nat, ghost k: nat, ghost cs: seq<Ber>, ghost rest: seq<byte>,
               ghost all: seq<byte>, ghost before: seq<seq<byte>>, ghost kinds: seq<Kind>, ghost chain: seq<Cbb>, ghost es: seq<Ber>, ghost left: seq<Ber>)
    returns (ok: bool, stop: bool, ghost es': seq<Ber>, ghost left': seq<Ber>)
    requires |before| == |chain| == k + 1 && |kinds| == k && chain[k] == out && |input.data| > 0
    requires Reading(base, input, before, kinds, chain, k, all, es, squash, depth) && Ahead(all, cs, eoc, rest, es, left, input.data)
    modifies input, base, chain`child, chain`offset, chain`pendingLenLen, chain`pendingIsAsn1, chain`base
    ensures ok ==> |input.data| < old(|input.data|)
    ensures ok && !stop ==> Reading(base, input, before, kinds, chain, k, all, es', squash, depth)
    ensures ok && !stop ==> Ahead(all, cs, eoc, rest, es', left', input.data)
    ensures ok && stop ==> eoc && es' == es && all == Encode(es) + EOC + input.data
                           && base.Valid() && base.chain == chain && base.kinds == kinds && base.parts == before[..k] + [before[k] + Output(es, squash)]
    ensures !ok && IsList(all, cs, eoc, rest) ==> AllHopeless(base, before, kinds, cs, squash, depth)
    decreases |input.data|, 3
  {
    ghost var d, parts := input.data, base.parts;
    ghost var e;
    es', left' := es, left;
    ok, stop, e := ConvertOne(input, base, out, squash, eoc, depth, k, if left == [] then Prim(1, []) else left[0], Behind(left, eoc, rest));
    if !ok {
      if IsList(all, cs, eoc, rest) {
        Gave(base, before, kinds, k, parts, cs, es, left, squash, depth, d, eoc, rest);
      }
      return;
    }
    if stop {
      Stopped(all, es, d, input.data);
      Rewrote(before, parts, base.parts, k, Output(es, squash), []);
      return;
    }
    Rewrote(before, parts, base.parts, k, Output(es, squash), OutputOne(e, squash));
    es' := es + [e];
    left' := NextLeft(all, cs, eoc, rest, es, left, d, e, input.data);
    OneMoreRead(all, es, e, d, input.data, squash, depth);
  }

  lemma OneMoreRead(all: seq<byte>, es: seq<Ber>, e: Ber, d: seq<byte>, data: seq<byte>, squash: bool, depth: nat)
    requires AllBer(es) && all == Encode(es) + d && (!squash ==> AllTrees(Meanings(es))) && Convertible(es, squash, depth)
    requires IsOne(d, e, data) && ConvertibleOne(e, squash, depth) && (!squash ==> IsTree(Meaning(e)))
    ensures AllBer(es + [e]) && all == Encode(es + [e]) + data && Convertible(es + [e], squash, depth)
    ensures Output(es + [e], squash) == Output(es, squash) + OutputOne(e, squash) && (!squash ==> AllTrees(Meanings(es + [e])))
  {
    Advanced(all, es, e, d, data);
    OutputAppend(es, e, squash);
    MeaningsAppend(es, e);
  }

  lemma NextLeft(all: seq<byte>, cs: seq<Ber>, eoc: bool, rest: seq<byte>, es: seq<Ber>, left: seq<Ber>, d: seq<byte>, e: Ber, data: seq<byte>)
    returns (left': seq<Ber>)
    requires Ahead(all, cs, eoc, rest, es, left, d) && IsOne(d, e, data)
    ensures Ahead(all, cs, eoc, rest, es + [e], left', data)
  {
    left' := left;
    if IsList(all, cs, eoc, rest) {
      ListRead(d, left, eoc, rest, e, data);
      left' := left[1..];
      MoveFirst(es, left, e);
    }
  }

  lemma MoveFirst(es: seq<Ber>, left: seq<Ber>, e: Ber)
    requires left != [] && left[0] == e
    ensures es + left == es + [e] + left[1..]
  {
  }

  /** What lies behind the first element of the list. */
  ghost function Behind(es: seq<Ber>, eoc: bool, rest: seq<byte>): seq<byte> {
    Encode(if es == [] then [] else es[1..]) + (if eoc then EOC else []) + rest
  }

  /** The loop gave up at the first of `left`: then the whole list is at fault. */
  lemma Gave(base: Buffer, before: seq<seq<byte>>, kinds: seq<Kind>, k: nat, parts: seq<seq<byte>>, cs: seq<Ber>, es: seq<Ber>,
             left: seq<Ber>, squash: bool, depth: nat, d: seq<byte>, eoc: bool, rest: seq<byte>)
    requires Shape(before, kinds) && |kinds| == k && parts == before[..k] + [before[k] + Output(es, squash)]
    requires cs == es + left && IsList(d, left, eoc, rest) && d != []
    requires left != [] && IsOne(d, left[0], Behind(left, eoc, rest)) ==> Hopeless(base, parts, kinds, left[0], squash, depth)
    requires !eoc || !(EOC <= d)
    ensures AllHopeless(base, before, kinds, cs, squash, depth)
  {
    NotAtEnd(d, left, eoc, rest);
    ListStep(d, left, eoc, rest);
    MoveFirst(es, left, left[0]);
    GaveAt(base, before, kinds, parts, es, left[0], left[1..], squash, depth);
  }

  lemma GaveAt(base: Buffer, before: seq<seq<byte>>, kinds: seq<Kind>, parts: seq<seq<byte>>, es: seq<Ber>, c: Ber, more: seq<Ber>,
               squash: bool, depth: nat)
    requires Shape(before, kinds) && parts == before[..|kinds|] + [before[|kinds|] + Output(es, squash)]
    requires Hopeless(base, parts, kinds, c, squash, depth)
    ensures AllHopeless(base, before, kinds, es + [c] + more, squash, depth)
  {
    assert (es + [c] + more)[|es|] == c;
    if Overfull(base, parts, kinds, OutputOne(c, squash)) {
      OverfullBefore(base, before, kinds, parts, es, c, more, squash);
    }
  }

  lemma OverfullBefore(base: Buffer, before: seq<seq<byte>>, kinds: seq<Kind>, parts: seq<seq<byte>>, es: seq<Ber>, c: Ber, more: seq<Ber>, squash: bool)
    requires Shape(before, kinds) && parts == before[..|kinds|] + [before[|kinds|] + Output(es, squash)]
    requires Overfull(base, parts, kinds, OutputOne(c, squash))
    ensures Overfull(base, before, kinds, Output(es + [c] + more, squash))
  {
    LengthExtend(before, kinds, Output(es, squash));
    OutputSplit(es, c, more, squash);
  }

  lemma NotAtEnd(d: seq<byte>, left: seq<Ber>, eoc: bool, rest: seq<byte>)
    requires IsList(d, left, eoc, rest) && d != [] && (!eoc || !(EOC <= d))
    ensures left != []
  {
    assert [] + EOC + rest == EOC + rest;
  }

  lemma OutputSplit(es: seq<Ber>, c: Ber, more: seq<Ber>, squash: bool)
    ensures |Output(es, squash)| + |OutputOne(c, squash)| <= |Output(es + [c] + more, squash)|
  {
    OutputAppend(es, c, squash);
    OutputLonger(es + [c], more, squash);
  }

  lemma {:induction false} OutputLonger(es: seq<Ber>, more: seq<Ber>, squash: bool)
    ensures |Output(es, squash)| <= |Output(es + more, squash)|
  {
    if more == [] {
      assert es + more == es;
    } else {
      var front, last := more[..|more| - 1], more[|more| - 1];
      OutputLonger(es, front, squash);
      OutputAppend(es + front, last, squash);
      assert es + front + [last] == es + more;
    }
  }

  lemma Stopped(all: seq<byte>, es: seq<Ber>, d: seq<byte>, rest: seq<byte>)
    requires all == Encode(es) + d && d == EOC + rest
    ensures all == Encode(es) + EOC + rest
  {
  }

  lemma Advanced(all: seq<byte>, es: seq<Ber>, e: Ber, d: seq<byte>, rest: seq<byte>)
    requires all == Encode(es) + d && d == EncodeOne(e) + rest
    ensures all == Encode(es + [e]) + rest
  {
    EncodeAppend(es, [e]);
    assert [e][1..] == [];
    assert Encode([e]) == EncodeOne(e) + Encode([e][1..]) == EncodeOne(e);
  }

  lemma Rewrote(before: seq<seq<byte>>, middle: seq<seq<byte>>, after: seq<seq<byte>>, k: nat, a: seq<byte>, b: seq<byte>)
    requires k < |before| && middle == before[..k] + [before[k] + a] && after == middle[..k] + [middle[k] + b]
    ensures after == before[..k] + [before[k] + (a + b)]
    ensures b == [] ==> after == before[..k] + [before[k] + a]
  {
    assert before[k] + a + b == before[k] + (a + b);
    if b == [] {
      assert a + b == a;
    }
  }

  lemma {:induction false} MeaningsAppend(es: seq<Ber>, e: Ber)
    ensures Meanings(es + [e]) == Meanings(es) + [Meaning(e)]
  {
    if es == [] {
      assert (es + [e])[1..] == [];
    } else {
      assert (es + [e])[1..] == es[1..] + [e];
      MeaningsAppend(es[1..], e);
    }
  }

  ghost predicate InsideHopeless(base: Buffer, parts: seq<seq<byte>>, kinds: seq<Kind>, outTag: byte, cs: seq<Ber>, squash: bool, depth: nat)
    requires Shape(parts, kinds)
  {
    !Convertible(cs, squash, depth) || |Output(cs, squash)| > 0xffff_fffe
    || Overfull(base, parts, kinds, Definite(outTag, Output(cs, squash)))
  }

  /** Opens an element, converts into it and closes it. */
  method ConvertInside(input: Cbs, base: Buffer, out: Cbb, outTag: byte, squash: bool, eoc: bool, depth: nat, ghost k: nat,
                       ghost cs: seq<Ber>, ghost rest: seq<byte>)
    returns (ok: bool, ghost es: seq<Ber>)
    requires base.Valid() && |base.chain| == k + 1 && base.chain[k] == out && IsShortTag(outTag)
    modifies input, base, base.chain`child, base.chain`offset, base.chain`pendingLenLen, base.chain`pendingIsAsn1, base.chain`base
    ensures ok ==> base.Valid() && |input.data| <= old(|input.data|)
    ensures ok ==> IsList(old(input.data), es, eoc, input.data) && Taken(es, squash, depth)
    ensures ok ==> |Output(es, squash)| <= 0xffff_fffe && Wrote(base, k, Definite(outTag, Output(es, squash)))
    ensures !ok && IsList(old(input.data), cs, eoc, rest) ==>
              InsideHopeless(base, old(base.parts), old(base.kinds), outTag, cs, squash, depth)
    decreases |input.data|, 7
  {
    es := [];
    var storage := new Cbb();
    ghost var chain, kinds := base.chain, base.kinds;
    ghost var parts := base.parts[..k] + [base.parts[k] + [outTag]];
    ok := OpenLast(base, out, storage, outTag, k, parts);
    if !ok {
      return;
    }
    ok, es := ConvertContents(input, base, out, storage, squash, eoc, depth, k, chain, kinds, parts, cs, rest);
    if ok {
      InsideWritten(old(base.parts), parts, base.parts, k, outTag, Output(es, squash));
    } else {
      UnclosableInside(base, old(base.parts), kinds, parts, outTag, Output(cs, squash));
    }
  }

  /** Opens an element at the end of the chain. */
  method OpenLast(base: Buffer, out: Cbb, storage: Cbb, tag: byte, ghost k: nat, ghost parts: seq<seq<byte>>) returns (ok: bool)
    requires base.Valid() && |base.chain| == k + 1 && base.chain[k] == out && storage !in base.chain && IsShortTag(tag)
    requires parts == base.parts[..k] + [base.parts[k] + [tag]]
    modifies base, base.chain`child, base.chain`offset, base.chain`pendingLenLen, base.chain`pendingIsAsn1, base.chain`base, storage
    ensures ok ==> Writing(base, storage, k, old(base.chain), old(base.kinds), parts, [])
    ensures !ok ==> base.NoRoom(Length(old(base.parts), old(base.kinds)) + 2)
  {
    AlreadyClosed(base.parts, base.kinds);
    assert base.chain[..k + 1] == base.chain;
    ok := OpenElement(base, out, storage, tag, k, base.chain, base.kinds, parts);
  }

  lemma InsideWritten(before: seq<seq<byte>>, parts: seq<seq<byte>>, after: seq<seq<byte>>, k: nat, tag: byte, contents: seq<byte>)
    requires k < |before| && parts == before[..k] + [before[k] + [tag]] && |contents| < 0x1_0000_0000
    requires after == parts[..k] + [parts[k] + (LengthOctets(|contents|) + contents)]
    ensures after == before[..k] + [before[k] + Definite(tag, contents)]
  {
    ElementWritten(before[k], tag, contents);
    assert parts[..k] == before[..k];
  }

  lemma UnclosableInside(base: Buffer, before: seq<seq<byte>>, kinds: seq<Kind>, parts: seq<seq<byte>>, tag: byte, contents: seq<byte>)
    requires Shape(before, kinds) && parts == before[..|kinds|] + [before[|kinds|] + [tag]]
    ensures Unclosable(base, parts, kinds, contents) ==> |contents| > 0xffff_fffe || Overfull(base, before, kinds, Definite(tag, contents))
  {
    LengthExtend(before, kinds, [tag]);
  }

  /** Converts into an element just opened and closes it. */
  method ConvertContents(input: Cbs, base: Buffer, out: Cbb, storage: Cbb, squash: bool, eoc: bool, depth: nat, ghost k: nat,
                         ghost chain: seq<Cbb>, ghost kinds: seq<Kind>, ghost parts: seq<seq<byte>>, ghost cs: seq<Ber>, ghost rest: seq<byte>)
    returns (ok: bool, ghost es: seq<Ber>)
    requires |chain| == |parts| == k + 1 && |kinds| == k && chain[k] == out
    requires Writing(base, storage, k, chain, kinds, parts, [])
    modifies input, base, chain`child, chain`offset, chain`pendingLenLen, chain`pendingIsAsn1, chain`base, storage
    ensures ok ==> base.Valid() && |input.data| <= old(|input.data|) && base.chain == chain && base.kinds == kinds
    ensures ok ==> IsList(old(input.data), es, eoc, input.data) && Taken(es, squash, depth) && |Output(es, squash)| <= 0xffff_fffe
    ensures ok ==> base.parts == parts[..k] + [parts[k] + (LengthOctets(|Output(es, squash)|) + Output(es, squash))]
    ensures !ok && IsList(old(input.data), cs, eoc, rest) ==>
              !Convertible(cs, squash, depth) || Unclosable(base, parts, kinds, Output(cs, squash))
    decreases |input.data|, 6
  {
    ok, es := ConvertInto(input, base, storage, squash, eoc, depth, k, chain, kinds, parts, cs, rest);
    if !ok {
      return;
    }
    ok := CloseElement(base, out, storage, k, chain, kinds, parts, Output(es, squash));
    if !ok && IsList(old(input.data), cs, eoc, rest) {
      ListUnique(old(input.data), cs, rest, es, input.data, eoc);
    }
  }

  /** Converts into an element just opened. */
  method ConvertInto(input: Cbs, base: Buffer, storage: Cbb, squash: bool, eoc: bool, depth: nat, ghost k: nat,
                     ghost chain: seq<Cbb>, ghost kinds: seq<Kind>, ghost parts: seq<seq<byte>>, ghost cs: seq<Ber>, ghost rest: seq<byte>)
    returns (ok: bool, ghost es: seq<Ber>)
    requires |chain| == |parts| == k + 1 && |kinds| == k
    requires Writing(base, storage, k, chain, kinds, parts, [])
    modifies input, base, chain`child, chain`offset, chain`pendingLenLen, chain`pendingIsAsn1, chain`base, storage
    ensures ok ==> Writing(base, storage, k, chain, kinds, parts, Output(es, squash)) && |input.data| <= old(|input.data|)
    ensures ok ==> IsList(old(input.data), es, eoc, input.data) && Taken(es, squash, depth)
    ensures !ok && IsList(old(input.data), cs, eoc, rest) ==>
              !Convertible(cs, squash, depth) || Unclosable(base, parts, kinds, Output(cs, squash))
    decreases |input.data|, 5
  {
    ok, es := Convert(input, base, storage, squash, eoc, depth, k + 1, cs, rest);
    InnerOverfull(base, parts, kinds, Output(cs, squash));
    ghost var contents := Output(es, squash);
    assert (parts + [[]])[..k + 1] == parts && [] + contents == contents;
  }

  /** The contents are too long for a length, or with it too long for the buffer. */
  ghost predicate Unclosable(base: Buffer, parts: seq<seq<byte>>, kinds: seq<Kind>, contents: seq<byte>)
    requires Shape(parts, kinds)
  {
    |contents| > 0xffff_fffe || base.NoRoom(Length(parts, kinds) + |LengthOctets(|contents|)| + |contents|)
  }

  /** The length octets take at least the byte set aside for them. */
  lemma InnerOverfull(base: Buffer, parts: seq<seq<byte>>, kinds: seq<Kind>, contents: seq<byte>)
    requires Shape(parts, kinds)
    ensures Overfull(base, parts + [[]], kinds + [Der], contents) ==> Unclosable(base, parts, kinds, contents)
  {
    LengthSnoc(parts, kinds, Der, []);
  }

  lemma ListUnique(d: seq<byte>, a: seq<Ber>, x: seq<byte>, b: seq<Ber>, y: seq<byte>, eoc: bool)
    requires IsList(d, a, eoc, x) && IsList(d, b, eoc, y)
    ensures a == b
  {
    var end := if eoc then EOC else [];
    assert Encode(a) + end + x == Encode(a) + (end + x) && Encode(b) + end + y == Encode(b) + (end + y);
    EncodeUnique(a, b, end + x, end + y);
  }

  method ConvertIndefinite(input: Cbs, base: Buffer, out: Cbb, tag: byte, squash: bool, depth: nat, ghost k: nat,
                           ghost cs: seq<Ber>, ghost rest: seq<byte>)
    returns (ok: bool, ghost kids: seq<Ber>)
    requires base.Valid() && |base.chain| == k + 1 && base.chain[k] == out
    requires IsShortTag(tag) && IsConstructed(tag)
    modifies input, base, base.chain`child, base.chain`offset, base.chain`pendingLenLen, base.chain`pendingIsAsn1, base.chain`base
    ensures ok ==> base.Valid() && |input.data| <= old(|input.data|)
    ensures ok ==> AllBer(kids) && Wrote(base, k, OutputOne(Indef(tag, kids), squash)) && old(input.data) == Encode(kids) + EOC + input.data
    ensures ok && !squash ==> IsTree(Meaning(Indef(tag, kids)))
    ensures ok ==> ConvertibleOne(Indef(tag, kids), squash, depth)
    ensures !ok && IsList(old(input.data), cs, true, rest) ==>
              Hopeless(base, old(base.parts), old(base.kinds), Indef(tag, cs), squash, depth)
    decreases |input.data|, 8
  {
    var squashKids, read := DecideSquash(input, tag);
    kids := [];
    DecidedFor(tag, cs, input.data, rest, squashKids, read);
    if !read {
      return false, kids;
    }
    if squash {
      ok, kids := Convert(input, base, out, squashKids, true, depth + 1, k, cs, rest);
    } else {
      ok, kids := ConvertInside(input, base, out, if squashKids then ClearConstructed(tag) else tag, squashKids, true, depth + 1, k, cs, rest);
    }
    if ok {
      Decided(tag, kids, old(input.data), input.data, squashKids);
      IndefiniteOutput(tag, kids, squash);
    } else {
      IndefiniteOutput(tag, cs, squash);
    }
  }

  lemma IndefiniteOutput(tag: byte, kids: seq<Ber>, squash: bool)
    ensures var q := Squashes(tag, kids);
            OutputOne(Indef(tag, kids), squash)
            == if squash then Output(kids, q) else Definite(if q then ClearConstructed(tag) else tag, Output(kids, q))
  {
  }

  /** The decision on a list that the input may be. */
  lemma DecidedFor(tag: byte, cs: seq<Ber>, d: seq<byte>, rest: seq<byte>, squashKids: bool, read: bool)
    requires IsShortTag(tag) && IsConstructed(tag) && (!read ==> ReadElement(d, false).None?)
    requires read ==> squashKids == (IsPrimitiveType(tag)
                                     || (tag / 64 == 2 && ReadElement(d, false).Some?
                                         && ReadElement(d, false).value.total > ReadElement(d, false).value.header
                                         && IsPrimitiveType(ReadElement(d, false).value.tag)))
    ensures IsList(d, cs, true, rest) ==> read && squashKids == Squashes(tag, cs)
    ensures IsShortTag(ClearConstructed(tag))
  {
    if IsList(d, cs, true, rest) {
      PeekFirst(cs, rest);
    }
  }

  /** Whether the children are fragments; looks at the first child without consuming it. */
  method DecideSquash(input: Cbs, tag: byte) returns (squashKids: bool, read: bool)
    requires IsConstructed(tag)
    ensures read ==> squashKids == (IsPrimitiveType(tag)
                                    || (tag / 64 == 2 && ReadElement(input.data, false).Some?
                                        && ReadElement(input.data, false).value.total > ReadElement(input.data, false).value.header
                                        && IsPrimitiveType(ReadElement(input.data, false).value.tag)))
    ensures !read ==> tag / 64 == 2 && ReadElement(input.data, false).None?
  {
    squashKids, read := IsPrimitiveType(tag), true;
    if tag / 64 == 2 && IsConstructed(tag) {
      var copy := new Cbs(input.data);
      var e, bytes;
      read, e, bytes := copy.GetAnyElement(false);
      if read && |bytes| > e.header && IsPrimitiveType(e.tag) {
        squashKids := true;
      }
    }
  }

  lemma Decided(tag: byte, kids: seq<Ber>, before: seq<byte>, rest: seq<byte>, squashKids: bool)
    requires IsShortTag(tag) && IsConstructed(tag) && AllBer(kids) && before == Encode(kids) + EOC + rest
    requires squashKids == (IsPrimitiveType(tag)
                            || (tag / 64 == 2 && ReadElement(before, false).Some?
                                && ReadElement(before, false).value.total > ReadElement(before, false).value.header
                                && IsPrimitiveType(ReadElement(before, false).value.tag)))
    ensures squashKids == Squashes(tag, kids)
    ensures IsShortTag(ClearConstructed(tag)) && !IsConstructed(ClearConstructed(tag))
  {
    PeekFirst(kids, rest);
  }

  method ConvertDefinite(contents: seq<byte>, base: Buffer, out: Cbb, tag: byte, squash: bool, depth: nat, ghost k: nat, ghost c: Ber)
    returns (ok: bool, ghost e: Ber)
    requires base.Valid() && |base.chain| == k + 1 && base.chain[k] == out
    requires IsShortTag(tag) && |contents| < 0x1_0000_0000 && !(tag == 0 && contents == [])
    modifies base, base.chain`child, base.chain`offset, base.chain`pendingLenLen, base.chain`pendingIsAsn1, base.chain`base
    ensures ok ==> base.Valid() && IsBer(e) && !e.Indef? && e.tag == tag && Contents(e) == contents
    ensures ok ==> Wrote(base, k, OutputOne(e, squash))
    ensures ok && !squash ==> IsTree(Meaning(e))
    ensures ok ==> ConvertibleOne(e, squash, depth)
    ensures !ok && IsBer(c) && !c.Indef? && c.tag == tag && Contents(c) == contents ==>
              Hopeless(base, old(base.parts), old(base.kinds), c, squash, depth)
    decreases |contents|, 8
  {
    if IsConstructed(tag) {
      ghost var kids;
      var inner := new Cbs(contents);
      ghost var cs := if c.Prim? then [] else c.kids;
      assert Encode(cs) + [] + [] == Encode(cs);
      if squash {
        ok, kids := Convert(inner, base, out, false, false, depth + 1, k, cs, []);
      } else {
        ok, kids := ConvertInside(inner, base, out, tag, false, false, depth + 1, k, cs, []);
      }
      e := Cons(tag, kids);
      assert ok ==> Encode(kids) + [] + [] == Encode(kids);
    } else {
      e := Prim(tag, contents);
      if squash {
        ok := Append(base, contents, k);
      } else {
        ok := WritePrimitive(base, out, tag, contents, k);
      }
    }
  }

  /** A primitive element with its header. */
  method WritePrimitive(base: Buffer, out: Cbb, tag: byte, contents: seq<byte>, ghost k: nat) returns (ok: bool)
    requires base.Valid() && |base.chain| == k + 1 && base.chain[k] == out && IsShortTag(tag)
    modifies base, base.chain`child, base.chain`offset, base.chain`pendingLenLen, base.chain`pendingIsAsn1, base.chain`base
    ensures ok ==> base.Valid() && |contents| <= 0xffff_fffe && Wrote(base, k, Definite(tag, contents))
    ensures !ok ==> |contents| > 0xffff_fffe || Overfull(base, old(base.parts), old(base.kinds), Definite(tag, contents))
  {
    var storage := new Cbb();
    ghost var chain, kinds := base.chain, base.kinds;
    ghost var parts := base.parts[..k] + [base.parts[k] + [tag]];
    LengthExtend(base.parts, base.kinds, [tag]);
    LengthSnoc(parts, kinds, Der, []);
    ok := OpenLast(base, out, storage, tag, k, parts);
    if !ok {
      return;
    }
    ok := Append(base, contents, k + 1);
    if !ok {
      return;
    }
    assert (parts + [[]])[..k + 1] == parts && [] + contents == contents;
    ok := CloseElement(base, out, storage, k, chain, kinds, parts, contents);
    if ok {
      ElementWritten(old(base.parts)[k], tag, contents);
      assert parts[..k] == old(base.parts)[..k];
    }
  }

  /** The bytes are the encoding of these elements. */
  ghost predicate Denotes(data: seq<byte>, es: seq<Ber>) {
    AllBer(es) && data == Encode(es)
  }

  /** The input denotes a list that can be converted, with an output that a size_t can measure. */
  ghost predicate Acceptable(data: seq<byte>, es: seq<Ber>) {
    Denotes(data, es) && Convertible(es, false, 0) && |Output(es, false)| < 0x1_0000_0000_0000_0000
  }

  /** The conversion from the top level: the output is the DER encoding of the values the input denotes,
      the strict reader reads those values back at every depth, and definite input is returned unchanged.
      Given memory, it succeeds exactly when the input denotes a list that can be converted. */
  method ConvertAll(data: seq<byte>, allocates: nat -> bool) returns (ok: bool, bytes: seq<byte>)
    requires |data| < 0x1_0000_0000_0000_0000
    ensures Ample(allocates) ==> (ok <==> exists es :: Acceptable(data, es))
    ensures ok ==> exists es :: Denotes(data, es)
    ensures ok ==> forall es :: Denotes(data, es) ==>
                     bytes == BerTrees.Der(Meanings(es)) && StrictTrees(bytes) == Some(Meanings(es))
                     && ((forall i :: 0 <= i < |es| ==> IsDefinite(es[i])) ==> bytes == data)
    ensures ok ==> forall es :: Denotes(data, es) ==> StrictTrees(bytes).Some? && AllStand(es, StrictTrees(bytes).value)
  {
    ghost var es;
    ghost var cs := [];
    if exists c :: Acceptable(data, c) {
      cs :| Acceptable(data, cs);
    }
    ok, bytes, es := ConvertTop(data, allocates, cs);
    if ok {
      assert Acceptable(data, es);
      forall other | Denotes(data, other)
        ensures other == es
      {
        assert Encode(es) + [] == Encode(es) && Encode(other) + [] == Encode(other);
        EncodeUnique(es, other, [], []);
      }
      MeaningsStand(es);
    }
  }

  /** The same for the elements met on the way. */
  method ConvertTop(data: seq<byte>, allocates: nat -> bool, ghost cs: seq<Ber>) returns (ok: bool, bytes: seq<byte>, ghost es: seq<Ber>)
    requires |data| < 0x1_0000_0000_0000_0000
    ensures ok ==> Acceptable(data, es)
    ensures !ok && Ample(allocates) ==> !Acceptable(data, cs)
    ensures ok ==> bytes == BerTrees.Der(Meanings(es)) && StrictTrees(bytes) == Some(Meanings(es))
    ensures ok && (forall i :: 0 <= i < |es| ==> IsDefinite(es[i])) ==> bytes == data
  {
    var input := new Cbs(data);
    var cbb := new Cbb();
    Init(cbb, Zeros(|data|), true, allocates);
    var base := cbb.base;
    bytes := [];
    assert Encode(cs) + [] + [] == Encode(cs);
    ok, es := Convert(input, base, cbb, false, false, 0, 0, cs, []);
    if !ok {
      return;
    }
    ghost var parts, kinds := base.parts, base.kinds;
    assert base.Link(0);
    ok, bytes := Finish(cbb, true, 0);
    AlreadyClosed(parts, kinds);
    if ok {
      assert [] + Output(es, false) == Output(es, false);
      assert Encode(es) + [] + [] == Encode(es);
      StrictReadsDer(Meanings(es));
      if forall i :: 0 <= i < |es| ==> IsDefinite(es[i]) {
        DefiniteUnchanged(es);
      }
    }
  }

  // ---------- the input denotes only one list of values ----------

  /** The end of a list: the end of the data, or an end-of-contents. */
  predicate Ends(s: seq<byte>) { s == [] || (|s| >= 2 && s[0] == 0 && s[1] == 0) }

  lemma {:induction false} FirstBytes(e: Ber, rest: seq<byte>)
    requires IsBer(e)
    ensures |EncodeOne(e)| >= 2 + |Contents(e)|
    ensures var d := EncodeOne(e) + rest;
            d[0] == e.tag && (d[1] == 0x80 <==> e.Indef?) && !Ends(d)
  {
    if !e.Indef? {
      var len := |Contents(e)|;
      assert EncodeOne(e)[1] == LengthOctets(len)[0];
    }
  }

  lemma {:induction false} EncodeSplit(es: seq<Ber>, s: seq<byte>)
    ensures es == [] ==> Encode(es) + s == s
    ensures es != [] ==> Encode(es) + s == EncodeOne(es[0]) + (Encode(es[1..]) + s) && es == [es[0]] + es[1..]
  {
  }

  /** Two readings of the same bytes agree. */
  lemma {:induction false} EncodeUnique(a: seq<Ber>, b: seq<Ber>, s: seq<byte>, t: seq<byte>)
    requires AllBer(a) && AllBer(b) && Ends(s) && Ends(t)
    requires Encode(a) + s == Encode(b) + t
    ensures a == b && s == t
    decreases |Encode(a) + s|, 1
  {
    EncodeSplit(a, s);
    EncodeSplit(b, t);
    if a != [] && b != [] {
      OneUnique(a[0], b[0], Encode(a[1..]) + s, Encode(b[1..]) + t);
      EncodeUnique(a[1..], b[1..], s, t);
    } else if a != [] {
      FirstBytes(a[0], Encode(a[1..]) + s);
    } else if b != [] {
      FirstBytes(b[0], Encode(b[1..]) + t);
    }
  }

  lemma {:induction false} OneUnique(a: Ber, b: Ber, x: seq<byte>, y: seq<byte>)
    requires IsBer(a) && IsBer(b) && EncodeOne(a) + x == EncodeOne(b) + y
    ensures a == b && x == y && |EncodeOne(a)| >= 2
    decreases |EncodeOne(a) + x|, 0
  {
    FirstBytes(a, x);
    FirstBytes(b, y);
    if a.Indef? {
      IndefiniteSplit(a, x);
      IndefiniteSplit(b, y);
      EncodeUnique(a.kids, b.kids, EOC + x, EOC + y);
      assert (EOC + x)[2..] == x && (EOC + y)[2..] == y;
    } else {
      DefiniteSplit(a, x, b, y);
      if a.Cons? {
        assert Encode(a.kids) + [] == Encode(b.kids) + [];
        EncodeUnique(a.kids, b.kids, [], []);
      }
    }
  }

  lemma IndefiniteSplit(e: Ber, rest: seq<byte>)
    requires e.Indef?
    ensures (EncodeOne(e) + rest)[2..] == Encode(e.kids) + (EOC + rest)
  {
  }

  lemma DefiniteSplit(a: Ber, x: seq<byte>, b: Ber, y: seq<byte>)
    requires IsBer(a) && IsBer(b) && !a.Indef? && !b.Indef? && EncodeOne(a) + x == EncodeOne(b) + y
    ensures a.tag == b.tag && Contents(a) == Contents(b) && x == y && |Contents(a)| + 2 <= |EncodeOne(a)|
  {
    WriterThenReader(a.tag, Contents(a), x, false);
    WriterThenReader(b.tag, Contents(b), y, false);
  }
}
