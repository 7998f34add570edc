/** BER elements as ssl/bs_ber.c sees them, the DER trees they stand for, and the
    strict reader applied recursively. Sections 8.1.3 and 10.1 of X.690. */
module BerTrees {
  import opened Asn1
  import opened ByteReader

  /** One element of the relaxed encoding: definite primitive, definite constructed, indefinite. */
  datatype Ber =
    | Prim(tag: byte, bytes: seq<byte>)
    | Cons(tag: byte, kids: seq<Ber>)
    | Indef(tag: byte, kids: seq<Ber>)

  /** A DER value. */
  datatype Tree =
    | Leaf(tag: byte, bytes: seq<byte>)
    | Node(tag: byte, kids: seq<Tree>)

  const EOC: seq<byte> := [0, 0]

  // ---------- encodings ----------

  /** Definite contents are below 2^32 bytes wherever this is used. */
  function Definite(tag: byte, contents: seq<byte>): seq<byte> {
    if |contents| < 0x1_0000_0000 then Tlv(tag, contents) else []
  }

  function Encode(es: seq<Ber>): seq<byte>
    decreases es
  {
    if es == [] then [] else EncodeOne(es[0]) + Encode(es[1..])
  }

  function EncodeOne(e: Ber): seq<byte>
    decreases e
  {
    match e
    case Prim(tag, bytes) => Definite(tag, bytes)
    case Cons(tag, kids) => Definite(tag, Encode(kids))
    case Indef(tag, kids) => [tag, 0x80] + Encode(kids) + EOC
  }

  function Der(ts: seq<Tree>): seq<byte>
    decreases ts
  {
    if ts == [] then [] else DerOne(ts[0]) + Der(ts[1..])
  }

  function DerOne(t: Tree): seq<byte>
    decreases t
  {
    match t
    case Leaf(tag, bytes) => Definite(tag, bytes)
    case Node(tag, kids) => Definite(tag, Der(kids))
  }

  /** What the relaxed reader can have produced; an end-of-contents is not an element. */
  predicate IsBer(e: Ber)
    decreases e
  {
    IsShortTag(e.tag) &&
    match e
    case Prim(tag, bytes) => !IsConstructed(tag) && |bytes| < 0x1_0000_0000 && !(tag == 0 && bytes == [])
    case Cons(tag, kids) => IsConstructed(tag) && |Encode(kids)| < 0x1_0000_0000 && forall i :: 0 <= i < |kids| ==> IsBer(kids[i])
    case Indef(tag, kids) => IsConstructed(tag) && forall i :: 0 <= i < |kids| ==> IsBer(kids[i])
  }

  predicate AllBer(es: seq<Ber>) {
    forall i :: 0 <= i < |es| ==> IsBer(es[i])
  }

  predicate IsTree(t: Tree)
    decreases t
  {
    IsShortTag(t.tag) &&
    match t
    case Leaf(tag, bytes) => !IsConstructed(tag) && |bytes| < 0x1_0000_0000
    case Node(tag, kids) => IsConstructed(tag) && |Der(kids)| < 0x1_0000_0000 && forall i :: 0 <= i < |kids| ==> IsTree(kids[i])
  }

  predicate AllTrees(ts: seq<Tree>) {
    forall i :: 0 <= i < |ts| ==> IsTree(ts[i])
  }

  // ---------- the strict reader, recursively ----------

  /** Reads a whole byte string as strict elements, going into every constructed one. */
  function StrictTrees(d: seq<byte>): Option<seq<Tree>>
    decreases |d|
  {
    if d == [] then Some([])
    else match ReadElement(d, true)
      case None => None
      case Some(e) =>
        match StrictTrees(d[e.total..])
        case None => None
        case Some(rest) =>
          var contents := d[e.header..e.total];
          if !IsConstructed(e.tag) then Some([Leaf(e.tag, contents)] + rest)
          else match StrictTrees(contents)
            case None => None
            case Some(kids) => Some([Node(e.tag, kids)] + rest)
  }

  /** The strict reader inverts the DER encoding. */
  lemma {:induction false} StrictReadsDer(ts: seq<Tree>)
    requires AllTrees(ts)
    ensures StrictTrees(Der(ts)) == Some(ts)
    decreases ts
  {
    if ts != [] {
      StrictReadsDer(ts[1..]);
      StrictReadsOne(ts[0], ts[1..]);
      assert [ts[0]] + ts[1..] == ts;
    }
  }

  lemma {:induction false} StrictReadsOne(t: Tree, rest: seq<Tree>)
    requires IsTree(t) && StrictTrees(Der(rest)) == Some(rest)
    ensures StrictTrees(DerOne(t) + Der(rest)) == Some([t] + rest)
    decreases t, 0
  {
    var contents := if t.Leaf? then t.bytes else Der(t.kids);
    WriterThenReader(t.tag, contents, Der(rest), true);
    if t.Node? {
      StrictReadsDer(t.kids);
    }
  }

  // ---------- what the converter is to produce ----------

  /** is_primitive_type */
  predicate IsPrimitiveType(tag: byte) {
    tag / 64 == 0 && tag % 32 != 16 && tag % 32 != 17
  }

  function Contents(e: Ber): seq<byte> { if e.Prim? then e.bytes else Encode(e.kids) }

  /** Whether the children of an indefinite element are fragments of one string. */
  predicate Squashes(tag: byte, kids: seq<Ber>) {
    || IsPrimitiveType(tag)
    || (tag / 64 == 2 && kids != [] && !kids[0].Indef? && Contents(kids[0]) != [] && IsPrimitiveType(kids[0].tag))
  }

  function ClearConstructed(tag: byte): byte { if IsConstructed(tag) then tag - 32 else tag }

  /** The DER values of a list of elements: indefinite strings become one primitive value. */
  function Meanings(es: seq<Ber>): (ts: seq<Tree>)
    ensures |ts| == |es|
    decreases es
  {
    if es == [] then [] else [Meaning(es[0])] + Meanings(es[1..])
  }

  function Meaning(e: Ber): Tree
    decreases e
  {
    match e
    case Prim(tag, bytes) => Leaf(tag, bytes)
    case Cons(tag, kids) => Node(tag, Meanings(kids))
    case Indef(tag, kids) =>
      if Squashes(tag, kids) then Leaf(ClearConstructed(tag), Fragments(kids)) else Node(tag, Meanings(kids))
  }

  /** The concatenated fragments of a string, without the headers of the fragments themselves. */
  function Fragments(es: seq<Ber>): seq<byte>
    decreases es
  {
    if es == [] then [] else Fragment(es[0]) + Fragments(es[1..])
  }

  function Fragment(e: Ber): seq<byte>
    decreases e
  {
    match e
    case Prim(_, bytes) => bytes
    case Cons(_, kids) => Der(Meanings(kids))
    case Indef(tag, kids) => if Squashes(tag, kids) then Fragments(kids) else Der(Meanings(kids))
  }

  function Output(es: seq<Ber>, squash: bool): seq<byte> {
    if squash then Fragments(es) else Der(Meanings(es))
  }

  function OutputOne(e: Ber, squash: bool): seq<byte> {
    if squash then Fragment(e) else DerOne(Meaning(e))
  }

  /** No indefinite element anywhere. */
  predicate IsDefinite(e: Ber)
    decreases e
  {
    match e
    case Prim(_, _) => true
    case Cons(_, kids) => forall i :: 0 <= i < |kids| ==> IsDefinite(kids[i])
    case Indef(_, _) => false
  }

  /** Input without indefinite elements is already its own output. */
  lemma {:induction false} DefiniteUnchanged(es: seq<Ber>)
    requires forall i :: 0 <= i < |es| ==> IsDefinite(es[i])
    ensures Der(Meanings(es)) == Encode(es)
    decreases es
  {
    if es != [] {
      var e := es[0];
      if e.Cons? {
        DefiniteUnchanged(e.kids);
      }
      DefiniteUnchanged(es[1..]);
      assert Meanings(es)[1..] == Meanings(es[1..]);
    }
  }

  // ---------- the same by tag numbers ----------

  /** An element that counts as a piece of a string: definite, not empty, universal, and no SEQUENCE or SET. */
  predicate StringPiece(e: Ber) {
    match e
    case Prim(tag, bytes) => bytes != [] && tag < 0x20 && tag != 0x10 && tag != 0x11
    case Cons(tag, kids) => kids != [] && tag < 0x40 && tag != 0x30 && tag != 0x31
    case Indef(_, _) => false
  }

  /** Among the indefinite elements a SEQUENCE (0x30), a SET (0x31) and the application and private classes are kept
      with their children; other universal elements are strings in pieces; in the context class the first child decides. */
  predicate KeepsChildren(tag: byte, kids: seq<Ber>) {
    if tag < 0x40 then tag == 0x30 || tag == 0x31
    else if 0x80 <= tag < 0xc0 then kids == [] || !StringPiece(kids[0])
    else true
  }

  lemma KeepsChildrenIff(tag: byte, kids: seq<Ber>)
    requires IsBer(Indef(tag, kids))
    ensures KeepsChildren(tag, kids) <==> !Squashes(tag, kids)
  {
    if kids != [] && kids[0].Cons? && kids[0].kids != [] {
      EncodedNonEmpty(kids[0].kids[0]);
    }
  }

  lemma {:induction false} EncodedNonEmpty(e: Ber)
    requires IsBer(e)
    ensures EncodeOne(e) != []
  {
  }

  /** What an indefinite element turns into, on its own and as a piece of a string. */
  lemma IndefiniteMeans(tag: byte, kids: seq<Ber>)
    requires IsBer(Indef(tag, kids))
    ensures KeepsChildren(tag, kids) ==>
              Meaning(Indef(tag, kids)) == Node(tag, Meanings(kids)) && Fragment(Indef(tag, kids)) == Der(Meanings(kids))
    ensures !KeepsChildren(tag, kids) ==>
              tag >= 0x20 && Meaning(Indef(tag, kids)) == Leaf(tag - 0x20, Fragments(kids)) && Fragment(Indef(tag, kids)) == Fragments(kids)
  {
    KeepsChildrenIff(tag, kids);
  }

  /** A tree that has the shape of an element: one child for each child, except where a string is put together. */
  ghost predicate Stands(e: Ber, t: Tree)
    decreases e
  {
    match e
    case Prim(tag, bytes) => t == Leaf(tag, bytes)
    case Cons(tag, kids) => t.Node? && t.tag == tag && |t.kids| == |kids| && forall i :: 0 <= i < |kids| ==> Stands(kids[i], t.kids[i])
    case Indef(tag, kids) =>
      if KeepsChildren(tag, kids) then
        t.Node? && t.tag == tag && |t.kids| == |kids| && forall i :: 0 <= i < |kids| ==> Stands(kids[i], t.kids[i])
      else
        t.Leaf? && t.tag + 0x20 == tag && t.bytes == Fragments(kids)
  }

  ghost predicate AllStand(es: seq<Ber>, ts: seq<Tree>) {
    |ts| == |es| && forall i :: 0 <= i < |es| ==> Stands(es[i], ts[i])
  }

  lemma {:induction false} MeaningStands(e: Ber)
    requires IsBer(e)
    ensures Stands(e, Meaning(e))
    decreases e
  {
    if e.Indef? {
      IndefiniteMeans(e.tag, e.kids);
    }
    if !e.Prim? {
      MeaningsStand(e.kids);
    }
  }

  lemma {:induction false} MeaningsStand(es: seq<Ber>)
    requires AllBer(es)
    ensures AllStand(es, Meanings(es))
    decreases es
  {
    if es != [] {
      MeaningStands(es[0]);
      MeaningsStand(es[1..]);
      assert forall i :: 1 <= i < |es| ==> es[i] == es[1..][i - 1] && Meanings(es)[i] == Meanings(es[1..])[i - 1];
    }
  }

  // ---------- appending ----------

  lemma Reassociate(a: seq<byte>, b: seq<byte>, c: seq<byte>)
    ensures a + (b + c) == (a + b) + c
  {
  }

  lemma {:induction false} EncodeAppend(a: seq<Ber>, b: seq<Ber>)
    ensures Encode(a + b) == Encode(a) + Encode(b)
  {
    if a == [] {
      assert a + b == b;
    } else {
      EncodeAppend(a[1..], b);
      assert (a + b)[0] == a[0] && (a + b)[1..] == a[1..] + b;
      Reassociate(EncodeOne(a[0]), Encode(a[1..]), Encode(b));
    }
  }

  lemma {:induction false} OutputAppend(es: seq<Ber>, e: Ber, squash: bool)
    ensures Output(es + [e], squash) == Output(es, squash) + OutputOne(e, squash)
    decreases es
  {
    if es == [] {
      assert es + [e] == [e];
      assert [e][1..] == [];
      if squash {
        assert Fragments([e]) == Fragment(e) + Fragments([e][1..]);
      } else {
        assert Meanings([e]) == [Meaning(e)] + Meanings([e][1..]);
        assert Der([Meaning(e)]) == DerOne(Meaning(e)) + Der([Meaning(e)][1..]);
      }
    } else {
      OutputAppend(es[1..], e, squash);
      assert (es + [e])[1..] == es[1..] + [e];
      assert Meanings(es)[1..] == Meanings(es[1..]) && Meanings(es + [e])[1..] == Meanings((es + [e])[1..]);
    }
  }
}
