/** The cipher preference list of ssl/ssl_ciph.c: a doubly linked list rewritten
    in place by rules. Every rule is proved equal to a simple operation on the
    sequence of list entries. */
module CipherOrder {

  /** The bits that are set in an algorithm word. */
  type Word = set<nat>

  /** The algorithm words and strengths of an SSL_CIPHER. */
  datatype Cipher = Cipher(id: nat, mkey: Word, auth: Word, enc: Word, mac: Word, ssl: Word, strength: Word, strengthBits: int)

  datatype Rule = Add | Kill | Del | Ord

  /** What a rule selects by; an empty word or a zero identifier places no condition. */
  datatype Criteria = Criteria(id: nat, mkey: Word, auth: Word, enc: Word, mac: Word, ssl: Word, strength: Word, strengthBits: int)

  const STRONG_MASK: Word := {2, 3, 4, 5, 6, 7, 8}

  predicate Matches(q: Criteria, c: Cipher) {
    && (q.id == 0 || c.id == q.id)
    && if q.strengthBits >= 0 then q.strengthBits == c.strengthBits
       else
         && (q.mkey == {} || !(q.mkey !! c.mkey))
         && (q.auth == {} || !(q.auth !! c.auth))
         && (q.enc == {} || !(q.enc !! c.enc))
         && (q.mac == {} || !(q.mac !! c.mac))
         && (q.ssl == {} || !(q.ssl !! c.ssl))
         && (q.strength * STRONG_MASK == {} || !(q.strength * STRONG_MASK !! c.strength))
  }

  /** Whether a rule touches a matching entry with the given flag. */
  predicate Touches(rule: Rule, active: bool) {
    match rule
    case Add => !active
    case Ord => active
    case Del => active
    case Kill => true
  }

  class Node {
    const cipher: Cipher
    var active: bool
    var next: Node?
    var prev: Node?

    constructor (cipher: Cipher)
      ensures this.cipher == cipher && !active && next == null && prev == null
    {
      this.cipher := cipher;
      active, next, prev := false, null, null;
    }
  }

  // ---------- sequences of nodes ----------

  ghost function At(nodes: seq<Node>, i: int): Node? {
    if 0 <= i < |nodes| then nodes[i] else null
  }

  ghost predicate Distinct(nodes: seq<Node>) {
    forall i, j :: 0 <= i < j < |nodes| ==> nodes[i] != nodes[j]
  }

  ghost predicate Linked(nodes: seq<Node>)
    reads nodes
  {
    && Distinct(nodes)
    && (forall i {:trigger nodes[i].next} :: 0 <= i < |nodes| ==> nodes[i].next == At(nodes, i + 1))
    && (forall i {:trigger nodes[i].prev} :: 0 <= i < |nodes| ==> nodes[i].prev == At(nodes, i - 1))
  }

  ghost function Without<T>(s: seq<T>, k: nat): seq<T>
    requires k < |s|
  {
    s[..k] + s[k + 1..]
  }

  lemma WithoutAt(nodes: seq<Node>, k: nat)
    requires k < |nodes| && Distinct(nodes)
    ensures var rest := Without(nodes, k);
            && Distinct(rest) && |rest| == |nodes| - 1 && nodes[k] !in rest
            && (forall i :: 0 <= i < |rest| ==> rest[i] == if i < k then nodes[i] else nodes[i + 1])
  {
  }

  method HookTail(tail: Node, curr: Node, ghost rest: seq<Node>)
    requires Linked(rest) && rest != [] && tail == rest[|rest| - 1] && curr !in rest
    modifies tail`next, curr`next, curr`prev
    ensures Linked(rest + [curr])
  {
    tail.next := curr;
    curr.prev := tail;
    curr.next := null;
  }

  method HookHead(head: Node, curr: Node, ghost rest: seq<Node>)
    requires Linked(rest) && rest != [] && head == rest[0] && curr !in rest
    modifies head`prev, curr`next, curr`prev
    ensures Linked([curr] + rest)
  {
    head.prev := curr;
    curr.next := head;
    curr.prev := null;
  }

  // ---------- the rules on sequences of entries ----------

  datatype Entry = Entry(cipher: Cipher, active: bool)

  predicate Selects(q: Criteria, rule: Rule, e: Entry) {
    Matches(q, e.cipher) && Touches(rule, e.active)
  }

  /** The entries selected (or the others), in order. */
  ghost function Chosen(es: seq<Entry>, select: Entry -> bool, inside: bool): seq<Entry> {
    if es == [] then []
    else
      var before, e := Chosen(es[..|es| - 1], select, inside), es[|es| - 1];
      if select(e) == inside then before + [e] else before
  }

  ghost function SetActive(es: seq<Entry>, active: bool): (r: seq<Entry>)
    ensures |r| == |es| && forall i :: 0 <= i < |es| ==> r[i] == es[i].(active := active)
  {
    seq(|es|, i requires 0 <= i < |es| => es[i].(active := active))
  }

  /** ADD and ORD move to the tail, DEL moves to the head, KILL removes; order is kept otherwise. */
  ghost function Rearranged(es: seq<Entry>, select: Entry -> bool, rule: Rule): seq<Entry> {
    var chosen, others := Chosen(es, select, true), Chosen(es, select, false);
    match rule
    case Add => others + SetActive(chosen, true)
    case Ord => others + chosen
    case Del => SetActive(chosen, false) + others
    case Kill => others
  }

  ghost function Selector(q: Criteria, rule: Rule): Entry -> bool {
    e => Selects(q, rule, e)
  }

  ghost function RuleApplied(es: seq<Entry>, q: Criteria, rule: Rule): seq<Entry> {
    Rearranged(es, Selector(q, rule), rule)
  }

  // ---------- what a rule selects ----------

  /** The criteria of a rule that names nothing. */
  const ANY := Criteria(0, {}, {}, {}, {}, {}, {}, -1)

  /** Such a rule kills everything, adds what is not active, and moves or deletes what is. */
  lemma AnySelects(rule: Rule, e: Entry)
    ensures Selector(ANY, rule)(e) <==> rule == Kill || (e.active <==> rule == Ord || rule == Del)
  {
  }

  /** A rule with one word touches, among those, exactly the entries that share a bit with it in that word. */
  lemma OneWordSelects(w: Word, rule: Rule, e: Entry)
    ensures Selector(ANY.(mkey := w), rule)(e) <==> Selector(ANY, rule)(e) && (w == {} || !(w !! e.cipher.mkey))
    ensures Selector(ANY.(auth := w), rule)(e) <==> Selector(ANY, rule)(e) && (w == {} || !(w !! e.cipher.auth))
    ensures Selector(ANY.(enc := w), rule)(e) <==> Selector(ANY, rule)(e) && (w == {} || !(w !! e.cipher.enc))
    ensures Selector(ANY.(mac := w), rule)(e) <==> Selector(ANY, rule)(e) && (w == {} || !(w !! e.cipher.mac))
    ensures Selector(ANY.(ssl := w), rule)(e) <==> Selector(ANY, rule)(e) && (w == {} || !(w !! e.cipher.ssl))
  {
  }

  /** Of the strength word only seven bits count; an identifier selects its one cipher. */
  lemma StrengthOrIdSelects(w: Word, id: nat, rule: Rule, e: Entry)
    ensures Selector(ANY.(strength := w), rule)(e) <==> Selector(ANY, rule)(e) && (w * {2, 3, 4, 5, 6, 7, 8} == {} || !(w * {2, 3, 4, 5, 6, 7, 8} !! e.cipher.strength))
    ensures Selector(ANY.(id := id), rule)(e) <==> Selector(ANY, rule)(e) && (id == 0 || e.cipher.id == id)
  {
  }

  /** A rule with several words selects what all of them select alone. */
  lemma WordsIntersect(q: Criteria, rule: Rule, e: Entry)
    requires q.strengthBits < 0
    ensures Selector(q, rule)(e) <==>
              && Selector(ANY.(id := q.id), rule)(e)
              && Selector(ANY.(mkey := q.mkey), rule)(e) && Selector(ANY.(auth := q.auth), rule)(e)
              && Selector(ANY.(enc := q.enc), rule)(e) && Selector(ANY.(mac := q.mac), rule)(e)
              && Selector(ANY.(ssl := q.ssl), rule)(e) && Selector(ANY.(strength := q.strength), rule)(e)
  {
  }

  /** Strength bits replace the words: only they and the identifier count. */
  lemma BitsReplaceWords(q: Criteria, rule: Rule, e: Entry)
    requires q.strengthBits >= 0
    ensures Selector(q, rule)(e) <==> Selector(ANY.(id := q.id), rule)(e) && e.cipher.strengthBits == q.strengthBits
  {
  }

  /** What a rule does depends on what it selects in the list and nothing else. */
  lemma SelectionDecides(es: seq<Entry>, q: Criteria, rule: Rule, select: Entry -> bool)
    requires forall e :: select(e) == Selector(q, rule)(e)
    ensures RuleApplied(es, q, rule) == Rearranged(es, select, rule)
  {
    ChosenSame(es, Selector(q, rule), select);
  }

  /** Killing by an authentication word leaves, in order, exactly the entries that share no bit with it. */
  lemma KillByAuth(es: seq<Entry>, w: Word)
    requires w != {}
    ensures RuleApplied(es, ANY.(auth := w), Kill) == Chosen(es, (e: Entry) => w !! e.cipher.auth, true)
  {
    var select := (e: Entry) => !(w !! e.cipher.auth);
    SelectionDecides(es, ANY.(auth := w), Kill, select);
    ChosenOpposite(es, select, (e: Entry) => w !! e.cipher.auth);
  }

  lemma {:induction false} ChosenOpposite(es: seq<Entry>, p: Entry -> bool, q: Entry -> bool)
    requires forall e :: p(e) == !q(e)
    ensures Chosen(es, p, false) == Chosen(es, q, true)
  {
    if es != [] {
      ChosenOpposite(es[..|es| - 1], p, q);
    }
  }

  // ---------- from nodes to entries ----------

  ghost function EntriesOf(nodes: seq<Node>): (es: seq<Entry>)
    reads nodes
    ensures |es| == |nodes|
    ensures forall i :: 0 <= i < |nodes| ==> es[i] == Entry(nodes[i].cipher, nodes[i].active)
  {
    seq(|nodes|, i requires 0 <= i < |nodes| reads nodes => Entry(nodes[i].cipher, nodes[i].active))
  }

  /** The nodes in `chosen` (or the others), in order. */
  ghost function Pick(nodes: seq<Node>, chosen: set<Node>, inside: bool): seq<Node> {
    if nodes == [] then []
    else
      var before, n := Pick(nodes[..|nodes| - 1], chosen, inside), nodes[|nodes| - 1];
      if (n in chosen) == inside then before + [n] else before
  }

  lemma PickNext(nodes: seq<Node>, chosen: set<Node>, i: nat)
    requires i < |nodes|
    ensures Pick(nodes[..i + 1], chosen, true) == Pick(nodes[..i], chosen, true) + if nodes[i] in chosen then [nodes[i]] else []
    ensures Pick(nodes[..i + 1], chosen, false) == Pick(nodes[..i], chosen, false) + if nodes[i] in chosen then [] else [nodes[i]]
  {
    assert nodes[..i + 1][..i] == nodes[..i];
  }

  lemma {:induction false} PickPrepend(n: Node, nodes: seq<Node>, chosen: set<Node>, inside: bool)
    ensures Pick([n] + nodes, chosen, inside) == (if (n in chosen) == inside then [n] else []) + Pick(nodes, chosen, inside)
  {
    var all := [n] + nodes;
    if nodes == [] {
      assert all[..0] == [];
    } else {
      assert all[..|all| - 1] == [n] + nodes[..|nodes| - 1];
      PickPrepend(n, nodes[..|nodes| - 1], chosen, inside);
    }
  }

  lemma EntriesAppend(nodes: seq<Node>, n: Node)
    ensures EntriesOf(nodes + [n]) == EntriesOf(nodes) + [Entry(n.cipher, n.active)]
  {
  }

  lemma SetActiveAppend(es: seq<Entry>, e: Entry, active: bool)
    ensures SetActive(es + [e], active) == SetActive(es, active) + [e.(active := active)]
  {
  }

  lemma {:induction false} PickEntries(nodes: seq<Node>, chosen: set<Node>, es: seq<Entry>, select: Entry -> bool, flag: bool)
    requires |es| == |nodes|
    requires forall i :: 0 <= i < |nodes| ==> (nodes[i] in chosen) == select(es[i])
    requires forall i :: 0 <= i < |nodes| ==>
               nodes[i].cipher == es[i].cipher && nodes[i].active == if nodes[i] in chosen then flag else es[i].active
    ensures EntriesOf(Pick(nodes, chosen, false)) == Chosen(es, select, false)
    ensures EntriesOf(Pick(nodes, chosen, true)) == SetActive(Chosen(es, select, true), flag)
  {
    if nodes != [] {
      var m := |nodes| - 1;
      PickEntries(nodes[..m], chosen, es[..m], select, flag);
      EntriesAppend(Pick(nodes[..m], chosen, nodes[m] in chosen), nodes[m]);
      SetActiveAppend(Chosen(es[..m], select, true), es[m], flag);
    }
  }

  lemma {:induction false} ChosenAllSelected(es: seq<Entry>, select: Entry -> bool)
    ensures forall i :: 0 <= i < |Chosen(es, select, true)| ==> select(Chosen(es, select, true)[i])
  {
    if es != [] {
      ChosenAllSelected(es[..|es| - 1], select);
    }
  }

  /** The flag of a selected entry after the rule. */
  function NewFlag(rule: Rule): bool { rule == Add || rule == Ord }

  /** The new order of the nodes. */
  ghost function Reordered(nodes: seq<Node>, chosen: set<Node>, rule: Rule): seq<Node> {
    match rule
    case Add => Pick(nodes, chosen, false) + Pick(nodes, chosen, true)
    case Ord => Pick(nodes, chosen, false) + Pick(nodes, chosen, true)
    case Del => Pick(nodes, chosen, true) + Pick(nodes, chosen, false)
    case Kill => Pick(nodes, chosen, false)
  }

  lemma EntriesConcat(a: seq<Node>, b: seq<Node>)
    ensures EntriesOf(a + b) == EntriesOf(a) + EntriesOf(b)
  {
  }

  lemma RuleOnEntries(nodes: seq<Node>, chosen: set<Node>, es: seq<Entry>, select: Entry -> bool, rule: Rule)
    requires |es| == |nodes|
    requires forall i :: 0 <= i < |nodes| ==> (nodes[i] in chosen) == select(es[i])
    requires forall i :: 0 <= i < |nodes| ==>
               nodes[i].cipher == es[i].cipher && nodes[i].active == if nodes[i] in chosen then NewFlag(rule) else es[i].active
    requires rule == Ord ==> forall e :: select(e) ==> e.active
    ensures EntriesOf(Reordered(nodes, chosen, rule)) == Rearranged(es, select, rule)
  {
    PickEntries(nodes, chosen, es, select, NewFlag(rule));
    EntriesConcat(Pick(nodes, chosen, false), Pick(nodes, chosen, true));
    EntriesConcat(Pick(nodes, chosen, true), Pick(nodes, chosen, false));
    if rule == Ord {
      ChosenAllSelected(es, select);
      assert SetActive(Chosen(es, select, true), true) == Chosen(es, select, true);
    }
  }

  lemma CutAt<T>(kept: seq<T>, was: seq<T>, i: nat, moved: seq<T>)
    requires i < |was|
    ensures kept + was[i..] + moved == kept + [was[i]] + (was[i + 1..] + moved)
  {
  }

  lemma NextNode(nodes: seq<Node>, kept: seq<Node>, n: Node, rest: seq<Node>)
    requires Linked(nodes) && nodes == kept + [n] + rest
    ensures n.next == At(rest, 0) && n.prev == At(kept, |kept| - 1)
  {
    var k := |kept|;
    assert nodes[k] == n && nodes[k].next == At(nodes, k + 1) && nodes[k].prev == At(nodes, k - 1);
  }

  /** The list after the first `i` nodes of `was` were visited from the head. */
  ghost function ForwardOrder(was: seq<Node>, chosen: set<Node>, rule: Rule, i: nat): seq<Node>
    requires i <= |was|
  {
    Pick(was[..i], chosen, false) + was[i..] + if rule == Kill then [] else Pick(was[..i], chosen, true)
  }

  lemma ForwardOrderEnds(was: seq<Node>, chosen: set<Node>, rule: Rule)
    ensures ForwardOrder(was, chosen, rule, 0) == was
    ensures rule != Del ==> ForwardOrder(was, chosen, rule, |was|) == Reordered(was, chosen, rule)
  {
    assert was[..0] == [] && was[..|was|] == was && was[|was|..] == [];
  }

  /** What one more visit does to that list. */
  lemma ForwardOrderStep(was: seq<Node>, chosen: set<Node>, rule: Rule, i: nat) returns (a: seq<Node>, b: seq<Node>)
    requires i < |was|
    ensures ForwardOrder(was, chosen, rule, i) == a + [was[i]] + b
    ensures i + 1 < |was| ==> b != [] && b[0] == was[i + 1]
    ensures ForwardOrder(was, chosen, rule, i + 1)
            == if was[i] !in chosen then a + [was[i]] + b else a + b + if rule == Kill then [] else [was[i]]
  {
    a := Pick(was[..i], chosen, false);
    var moved := if rule == Kill then [] else Pick(was[..i], chosen, true);
    b := was[i + 1..] + moved;
    PickNext(was, chosen, i);
    CutAt(a, was, i, moved);
    Regroup(a, was[i], was[i + 1..], moved);
  }

  /** The list after the nodes of `was` from `i` on were visited from the tail. */
  ghost function BackwardOrder(was: seq<Node>, chosen: set<Node>, i: nat): seq<Node>
    requires i <= |was|
  {
    Pick(was[i..], chosen, true) + was[..i] + Pick(was[i..], chosen, false)
  }

  lemma BackwardOrderEnds(was: seq<Node>, chosen: set<Node>)
    ensures BackwardOrder(was, chosen, |was|) == was
    ensures BackwardOrder(was, chosen, 0) == Reordered(was, chosen, Del)
  {
    assert was[..0] == [] && was[..|was|] == was && was[|was|..] == [] && was[0..] == was;
  }

  lemma BackwardOrderStep(was: seq<Node>, chosen: set<Node>, i: nat) returns (a: seq<Node>, b: seq<Node>)
    requires i < |was|
    ensures BackwardOrder(was, chosen, i + 1) == a + [was[i]] + b
    ensures i > 0 ==> a != [] && a[|a| - 1] == was[i - 1]
    ensures BackwardOrder(was, chosen, i) == if was[i] !in chosen then a + [was[i]] + b else [was[i]] + (a + b)
  {
    var moved, kept := Pick(was[i + 1..], chosen, true), Pick(was[i + 1..], chosen, false);
    a := moved + was[..i];
    b := kept;
    assert was[i..] == [was[i]] + was[i + 1..];
    PickPrepend(was[i], was[i + 1..], chosen, true);
    PickPrepend(was[i], was[i + 1..], chosen, false);
    assert was[..i + 1] == was[..i] + [was[i]];
    RegroupBack(moved, was[..i], was[i], kept);
  }

  lemma RegroupBack<T>(moved: seq<T>, rest: seq<T>, n: T, kept: seq<T>)
    ensures moved + (rest + [n]) + kept == (moved + rest) + [n] + kept
    ensures (([] + moved) + rest) + ([n] + kept) == (moved + rest) + [n] + kept
    ensures (([n] + moved) + rest) + ([] + kept) == [n] + (moved + rest + kept)
  {
  }

  /** The three ways one node leaves the middle of the list. */
  lemma Regroup<T>(kept: seq<T>, n: T, rest: seq<T>, moved: seq<T>)
    ensures kept + [n] + (rest + moved) == (kept + [n]) + rest + moved
    ensures kept + (rest + moved) + [n] == kept + rest + (moved + [n])
    ensures kept + (rest + moved) + [] == kept + rest + moved
  {
  }

  lemma WithoutMiddle<T>(a: seq<T>, x: T, b: seq<T>)
    ensures Without(a + [x] + b, |a|) == a + b
  {
  }

  ghost predicate HasFlags(nodes: seq<Node>, flags: seq<bool>)
    reads nodes
  {
    |flags| == |nodes| && forall i :: 0 <= i < |nodes| ==> nodes[i].active == flags[i]
  }

  /** The flags after nodes `lo` up to `hi` of `was` were visited. */
  ghost predicate Flags(was: seq<Node>, chosen: set<Node>, flags: seq<bool>, rule: Rule, lo: int, hi: int)
    requires |flags| == |was|
    reads was
  {
    forall j :: 0 <= j < |was| ==> was[j].active == if lo <= j < hi && was[j] in chosen then NewFlag(rule) else flags[j]
  }

  lemma ChosenNodes(nodes: seq<Node>, es: seq<Entry>, chosen: set<Node>, q: Criteria, rule: Rule)
    requires Distinct(nodes) && |es| == |nodes|
    requires chosen == set j | 0 <= j < |nodes| && Selects(q, rule, es[j]) :: nodes[j]
    ensures forall j :: 0 <= j < |nodes| ==> (nodes[j] in chosen) == Selects(q, rule, es[j])
  {
  }

  // ---------- the strength sort on sequences of entries ----------

  ghost function Active(): Entry -> bool { (e: Entry) => e.active }

  ghost function Above(bits: int): Entry -> bool { (e: Entry) => e.active && e.cipher.strengthBits > bits }

  ghost function Exactly(bits: int): Entry -> bool { (e: Entry) => e.active && e.cipher.strengthBits == bits }

  function ByStrength(bits: int): Criteria { ANY.(strengthBits := bits) }

  /** The active entries of strengths `top` down to `bottom`, each strength in the old order. */
  ghost function Descending(es: seq<Entry>, top: int, bottom: int): seq<Entry>
    decreases top + 1 - bottom
  {
    if bottom > top then [] else Descending(es, top, bottom + 1) + Chosen(es, Exactly(bottom), true)
  }

  lemma {:induction false} ChosenConcat(a: seq<Entry>, b: seq<Entry>, select: Entry -> bool, inside: bool)
    ensures Chosen(a + b, select, inside) == Chosen(a, select, inside) + Chosen(b, select, inside)
  {
    if b == [] {
      assert a + b == a;
    } else {
      assert (a + b)[..|a + b| - 1] == a + b[..|b| - 1];
      ChosenConcat(a, b[..|b| - 1], select, inside);
    }
  }

  /** Every entry on one side: nothing or everything is chosen. */
  lemma {:induction false} ChosenUniform(es: seq<Entry>, select: Entry -> bool, inside: bool)
    requires forall i :: 0 <= i < |es| ==> select(es[i]) != inside
    ensures Chosen(es, select, inside) == [] && Chosen(es, select, !inside) == es
  {
    if es != [] {
      ChosenUniform(es[..|es| - 1], select, inside);
    }
  }

  /** Selecting from what an earlier selection left over. */
  lemma {:induction false} ChosenTwice(es: seq<Entry>, first: Entry -> bool, second: Entry -> bool, inside: bool, both: Entry -> bool, bothInside: bool)
    requires forall e :: (both(e) == bothInside) <==> !first(e) && second(e) == inside
    ensures Chosen(Chosen(es, first, false), second, inside) == Chosen(es, both, bothInside)
  {
    if es != [] {
      var m := |es| - 1;
      ChosenTwice(es[..m], first, second, inside, both, bothInside);
      var kept := Chosen(es[..m], first, false);
      assert (kept + [es[m]])[..|kept|] == kept;
    }
  }

  lemma {:induction false} DescendingAbove(es: seq<Entry>, top: int, bottom: int)
    ensures forall i :: 0 <= i < |Descending(es, top, bottom)| ==>
              Descending(es, top, bottom)[i].active && bottom <= Descending(es, top, bottom)[i].cipher.strengthBits <= top
    decreases top + 1 - bottom
  {
    if bottom <= top {
      DescendingAbove(es, top, bottom + 1);
      ChosenAllSelected(es, Exactly(bottom));
    }
  }

  lemma OrdByStrength(es: seq<Entry>, bits: int)
    requires bits >= 0
    ensures RuleApplied(es, ByStrength(bits), Ord) == Chosen(es, Exactly(bits), false) + Chosen(es, Exactly(bits), true)
  {
    ChosenSame(es, Selector(ByStrength(bits), Ord), Exactly(bits));
  }

  lemma ChosenFromLow(es: seq<Entry>, bits: int)
    ensures Chosen(Chosen(es, Above(bits), false), Exactly(bits), false) == Chosen(es, Above(bits - 1), false)
    ensures Chosen(Chosen(es, Above(bits), false), Exactly(bits), true) == Chosen(es, Exactly(bits), true)
  {
    ChosenTwice(es, Above(bits), Exactly(bits), false, Above(bits - 1), false);
    ChosenTwice(es, Above(bits), Exactly(bits), true, Exactly(bits), true);
  }

  /** Moving one more strength to the tail. */
  lemma SortStep(es: seq<Entry>, top: int, bits: int)
    requires 0 <= bits <= top
    ensures RuleApplied(Chosen(es, Above(bits), false) + Descending(es, top, bits + 1), ByStrength(bits), Ord)
            == Chosen(es, Above(bits - 1), false) + Descending(es, top, bits)
  {
    var low, done := Chosen(es, Above(bits), false), Descending(es, top, bits + 1);
    OrdByStrength(low + done, bits);
    ChosenConcat(low, done, Exactly(bits), true);
    ChosenConcat(low, done, Exactly(bits), false);
    DescendingAbove(es, top, bits + 1);
    ChosenUniform(done, Exactly(bits), true);
    ChosenFromLow(es, bits);
    Reassociate(Chosen(es, Above(bits - 1), false), done, Chosen(es, Exactly(bits), true));
  }

  lemma Reassociate(a: seq<Entry>, b: seq<Entry>, c: seq<Entry>)
    ensures (a + b) + (c + []) == a + (b + c)
  {
  }

  /** Before the first move nothing is sorted, after the last everything is. */
  lemma SortEnds(es: seq<Entry>, top: int)
    requires StrengthsIn(es, top)
    ensures Chosen(es, Above(top), false) + Descending(es, top, top + 1) == es
    ensures Chosen(es, Above(-1), false) + Descending(es, top, 0) == StrengthSorted(es, top)
  {
    ChosenUniform(es, Above(top), true);
    ChosenSame(es, Above(-1), Active());
  }

  /** All active strengths lie between 0 and `top`. */
  ghost predicate StrengthsIn(es: seq<Entry>, top: int) {
    forall i :: 0 <= i < |es| && es[i].active ==> 0 <= es[i].cipher.strengthBits <= top
  }

  lemma UsedOrNot(es: seq<Entry>, bits: int)
    ensures Chosen(es, Exactly(bits), true) != [] <==> exists i :: 0 <= i < |es| && es[i].active && es[i].cipher.strengthBits == bits
  {
    if Chosen(es, Exactly(bits), true) == [] {
      NoneChosen(es, Exactly(bits));
    } else if forall i :: 0 <= i < |es| ==> !Exactly(bits)(es[i]) {
      ChosenUniform(es, Exactly(bits), true);
    }
  }

  /** A strength that nobody uses needs no move. */
  lemma SortSkip(es: seq<Entry>, top: int, bits: int)
    requires 0 <= bits <= top && Chosen(es, Exactly(bits), true) == []
    ensures Chosen(es, Above(bits), false) == Chosen(es, Above(bits - 1), false)
    ensures Descending(es, top, bits + 1) == Descending(es, top, bits)
  {
    NoneChosen(es, Exactly(bits));
    ChosenSame(es, Above(bits), Above(bits - 1));
  }

  lemma {:induction false} NoneChosen(es: seq<Entry>, select: Entry -> bool)
    requires Chosen(es, select, true) == []
    ensures forall i :: 0 <= i < |es| ==> !select(es[i])
  {
    if es != [] {
      NoneChosen(es[..|es| - 1], select);
    }
  }

  lemma {:induction false} ChosenSame(es: seq<Entry>, f: Entry -> bool, g: Entry -> bool)
    requires forall i :: 0 <= i < |es| ==> f(es[i]) == g(es[i])
    ensures forall inside :: Chosen(es, f, inside) == Chosen(es, g, inside)
  {
    if es != [] {
      ChosenSame(es[..|es| - 1], f, g);
    }
  }

  /** Inactive entries first in their old order, then the active ones by descending strength. */
  ghost function StrengthSorted(es: seq<Entry>, top: int): seq<Entry> {
    Chosen(es, Active(), false) + Descending(es, top, 0)
  }

  ghost predicate Ordered(es: seq<Entry>) {
    forall i, j :: 0 <= i < j < |es| ==> es[i].cipher.strengthBits >= es[j].cipher.strengthBits
  }

  /** The active part is in descending order of strength. */
  lemma {:induction false} DescendingOrder(es: seq<Entry>, top: int, bottom: int)
    ensures Ordered(Descending(es, top, bottom))
    decreases top + 1 - bottom
  {
    if bottom <= top {
      DescendingOrder(es, top, bottom + 1);
      DescendingAbove(es, top, bottom + 1);
      ChosenAllSelected(es, Exactly(bottom));
      var above, last := Descending(es, top, bottom + 1), Chosen(es, Exactly(bottom), true);
      assert forall i :: 0 <= i < |last| ==> Exactly(bottom)(last[i]) && last[i].cipher.strengthBits == bottom;
      JoinOrder(above, last, bottom);
    }
  }

  lemma JoinOrder(a: seq<Entry>, c: seq<Entry>, bits: int)
    requires Ordered(a)
    requires forall i :: 0 <= i < |a| ==> a[i].cipher.strengthBits > bits
    requires forall i :: 0 <= i < |c| ==> c[i].cipher.strengthBits == bits
    ensures Ordered(a + c)
  {
  }

  /** The sort neither loses nor invents an entry. */
  lemma {:induction false} SortKeepsEntries(es: seq<Entry>, top: int, bottom: int)
    requires 0 <= bottom <= top + 1 && StrengthsIn(es, top)
    ensures multiset(Chosen(es, Above(bottom - 1), false) + Descending(es, top, bottom)) == multiset(es)
    decreases top + 1 - bottom
  {
    if bottom == top + 1 {
      SortEnds(es, top);
    } else {
      SortKeepsEntries(es, top, bottom + 1);
      SplitStrength(es, bottom);
      MoveBack(Chosen(es, Above(bottom - 1), false), Descending(es, top, bottom + 1), Chosen(es, Exactly(bottom), true),
               Chosen(es, Above(bottom), false));
    }
  }

  lemma MoveBack(low: seq<Entry>, done: seq<Entry>, moved: seq<Entry>, before: seq<Entry>)
    requires multiset(before) == multiset(low) + multiset(moved)
    ensures multiset(low + (done + moved)) == multiset(before + done)
  {
  }

  lemma {:induction false} SplitStrength(es: seq<Entry>, bits: int)
    ensures multiset(Chosen(es, Above(bits), false))
            == multiset(Chosen(es, Above(bits - 1), false)) + multiset(Chosen(es, Exactly(bits), true))
  {
    if es != [] {
      SplitStrength(es[..|es| - 1], bits);
    }
  }

  // ---------- collecting the available ciphers ----------

  /** What get_cipher returns for one index; `valid` is false for an absent one too. */
  datatype Candidate = Candidate(cipher: Cipher, valid: bool)

  datatype Disabled = Disabled(mkey: Word, auth: Word, enc: Word, mac: Word, ssl: Word)

  predicate Available(c: Candidate, d: Disabled) {
    && c.valid
    && c.cipher.mkey !! d.mkey && c.cipher.auth !! d.auth && c.cipher.enc !! d.enc
    && c.cipher.mac !! d.mac && c.cipher.ssl !! d.ssl
  }

  ghost function Collected(table: seq<Candidate>, d: Disabled): seq<Entry> {
    if table == [] then []
    else
      var before, c := Collected(table[..|table| - 1], d), table[|table| - 1];
      if Available(c, d) then before + [Entry(c.cipher, false)] else before
  }

  /** The ciphers of two tables one after the other. */
  lemma {:induction false} CollectedJoins(a: seq<Candidate>, b: seq<Candidate>, d: Disabled)
    ensures Collected(a + b, d) == Collected(a, d) + Collected(b, d)
  {
    if b == [] {
      assert a + b == a;
    } else {
      assert (a + b)[..|a + b| - 1] == a + b[..|b| - 1];
      CollectedJoins(a, b[..|b| - 1], d);
    }
  }

  const NOTHING := Disabled({}, {}, {}, {}, {})

  /** An entry is made of a candidate, inactive, or none is. */
  ghost predicate Admits(c: Candidate, d: Disabled) {
    Collected([c], d) == [Entry(c.cipher, false)]
  }

  lemma CollectedOne(c: Candidate, d: Disabled)
    ensures Collected([c], d) == if Available(c, d) then [Entry(c.cipher, false)] else []
  {
    assert [c][..0] == [];
  }

  lemma AdmitsIff(c: Candidate, d: Disabled)
    ensures Admits(c, d) <==> Available(c, d)
  {
    CollectedOne(c, d);
  }

  /** One disabled word drops exactly the valid ciphers that share a bit with it in that word. */
  lemma OneWordDisables(c: Candidate, w: Word)
    ensures Admits(c, NOTHING) <==> c.valid
    ensures Admits(c, NOTHING.(mkey := w)) <==> c.valid && c.cipher.mkey !! w
    ensures Admits(c, NOTHING.(auth := w)) <==> c.valid && c.cipher.auth !! w
    ensures Admits(c, NOTHING.(enc := w)) <==> c.valid && c.cipher.enc !! w
    ensures Admits(c, NOTHING.(mac := w)) <==> c.valid && c.cipher.mac !! w
    ensures Admits(c, NOTHING.(ssl := w)) <==> c.valid && c.cipher.ssl !! w
  {
    AdmitsIff(c, NOTHING);
    AdmitsIff(c, NOTHING.(mkey := w));
    AdmitsIff(c, NOTHING.(auth := w));
    AdmitsIff(c, NOTHING.(enc := w));
    AdmitsIff(c, NOTHING.(mac := w));
    AdmitsIff(c, NOTHING.(ssl := w));
  }

  /** Several disabled words leave what each leaves alone, and what is not left is dropped. */
  lemma DisabledIntersect(c: Candidate, d: Disabled)
    ensures Admits(c, d) <==>
              && Admits(c, NOTHING.(mkey := d.mkey)) && Admits(c, NOTHING.(auth := d.auth)) && Admits(c, NOTHING.(enc := d.enc))
              && Admits(c, NOTHING.(mac := d.mac)) && Admits(c, NOTHING.(ssl := d.ssl))
    ensures !Admits(c, d) ==> Collected([c], d) == []
  {
    CollectedOne(c, d);
    AdmitsIff(c, d);
    AdmitsIff(c, NOTHING.(mkey := d.mkey));
    AdmitsIff(c, NOTHING.(auth := d.auth));
    AdmitsIff(c, NOTHING.(enc := d.enc));
    AdmitsIff(c, NOTHING.(mac := d.mac));
    AdmitsIff(c, NOTHING.(ssl := d.ssl));
  }

  /** The first loop of ssl_cipher_collect_ciphers. */
  method CollectNodes(table: seq<Candidate>, d: Disabled) returns (list: seq<Node>)
    ensures Distinct(list) && (forall i :: 0 <= i < |list| ==> fresh(list[i]))
    ensures forall i :: 0 <= i < |list| ==> list[i].next == null && list[i].prev == null
    ensures EntriesOf(list) == Collected(table, d)
  {
    list := [];
    for i := 0 to |table|
      invariant Distinct(list) && (forall j :: 0 <= j < |list| ==> fresh(list[j]))
      invariant forall j :: 0 <= j < |list| ==> list[j].next == null && list[j].prev == null
      invariant EntriesOf(list) == Collected(table[..i], d)
    {
      assert table[..i + 1][..i] == table[..i];
      if Available(table[i], d) {
        var n := new Node(table[i].cipher);
        EntriesAppend(list, n);
        list := list + [n];
      }
    }
    assert table[..|table|] == table;
  }

  /** The second loop: neighbours are linked. */
  method LinkAll(list: seq<Node>)
    requires list != [] && Distinct(list) && forall i :: 0 <= i < |list| ==> list[i].next == null && list[i].prev == null
    modifies list`next, list`prev
    ensures Linked(list)
  {
    for i := 1 to |list|
      invariant forall j {:trigger list[j].next} :: 0 <= j < |list| ==> list[j].next == if j + 1 < i then At(list, j + 1) else null
      invariant forall j {:trigger list[j].prev} :: 0 <= j < |list| ==> list[j].prev == if j < i then At(list, j - 1) else null
    {
      list[i - 1].next := list[i];
      list[i].prev := list[i - 1];
    }
  }

  method LinkedNodes(table: seq<Candidate>, d: Disabled) returns (list: seq<Node>)
    ensures Linked(list) && (forall i :: 0 <= i < |list| ==> fresh(list[i]))
    ensures EntriesOf(list) == Collected(table, d)
  {
    list := CollectNodes(table, d);
    ghost var es := EntriesOf(list);
    if list != [] {
      LinkAll(list);
      assert EntriesOf(list) == es;
    }
  }

  /** One of the first `n` entries is active and of this strength. */
  ghost predicate UsedTo(es: seq<Entry>, n: nat, bits: int) {
    exists j :: 0 <= j < n <= |es| && es[j].active && es[j].cipher.strengthBits == bits
  }

  lemma UsedNext(es: seq<Entry>, n: nat)
    requires n < |es|
    ensures forall b :: UsedTo(es, n + 1, b) <==> UsedTo(es, n, b) || (es[n].active && es[n].cipher.strengthBits == b)
  {
    forall b
      ensures UsedTo(es, n + 1, b) <==> UsedTo(es, n, b) || (es[n].active && es[n].cipher.strengthBits == b)
    {
      if UsedTo(es, n, b) {
        var j :| 0 <= j < n && es[j].active && es[j].cipher.strengthBits == b;
        assert 0 <= j < n + 1 <= |es|;
      }
    }
  }

  class CipherList {
    var head: Node?
    var tail: Node?
    ghost var nodes: seq<Node>
    /** Every node that was ever in the list. */
    ghost const pool: set<Node>

    ghost predicate Valid()
      reads this, pool
    {
      && (forall i :: 0 <= i < |nodes| ==> nodes[i] in pool)
      && Linked(nodes) && head == At(nodes, 0) && tail == At(nodes, |nodes| - 1)
    }

    /** ssl_cipher_collect_ciphers */
    constructor Collect(table: seq<Candidate>, d: Disabled)
      ensures Valid() && fresh(pool) && Entries() == Collected(table, d)
    {
      var list := LinkedNodes(table, d);
      head := if list == [] then null else list[0];
      tail := if list == [] then null else list[|list| - 1];
      nodes := list;
      pool := set n | n in list;
    }

    /** Makes the neighbours of `curr` skip it. */
    method Unhook(curr: Node, ghost k: nat)
      requires Linked(nodes) && k < |nodes| && nodes[k] == curr && forall i :: 0 <= i < |nodes| ==> nodes[i] in pool
      modifies pool`next, pool`prev
      ensures Linked(Without(nodes, k)) && curr !in Without(nodes, k)
      ensures curr.next == old(curr.next) && curr.prev == old(curr.prev)
    {
      ghost var rest := Without(nodes, k);
      if curr.prev != null {
        curr.prev.next := curr.next;
      }
      if curr.next != null {
        curr.next.prev := curr.prev;
      }
      WithoutAt(nodes, k);
    }

    /** ll_append_tail */
    method AppendTail(curr: Node, ghost k: nat)
      requires Valid() && k < |nodes| && nodes[k] == curr
      modifies this, pool`next, pool`prev
      ensures Valid() && nodes == Without(old(nodes), k) + [curr]
    {
      ghost var rest := Without(nodes, k);
      WithoutAt(nodes, k);
      if curr == tail {
        assert rest + [curr] == nodes;
        return;
      }
      if curr == head {
        head := curr.next;
      }
      assert head == rest[0] && tail == rest[|rest| - 1];
      Unhook(curr, k);
      HookTail(tail, curr, rest);
      tail := curr;
      nodes := rest + [curr];
    }

    /** ll_append_head */
    method AppendHead(curr: Node, ghost k: nat)
      requires Valid() && k < |nodes| && nodes[k] == curr
      modifies this, pool`next, pool`prev
      ensures Valid() && nodes == [curr] + Without(old(nodes), k)
    {
      ghost var rest := Without(nodes, k);
      WithoutAt(nodes, k);
      if curr == head {
        assert [curr] + rest == nodes;
        return;
      }
      if curr == tail {
        tail := curr.prev;
      }
      assert head == rest[0] && tail == rest[|rest| - 1];
      Unhook(curr, k);
      MoveHead(curr, rest);
    }

    /** The unhooked node goes before the others. */
    method MoveHead(curr: Node, ghost rest: seq<Node>)
      requires Linked(rest) && rest != [] && head == rest[0] && tail == rest[|rest| - 1]
      requires curr !in rest && curr in pool && forall i :: 0 <= i < |rest| ==> rest[i] in pool
      modifies this`head, this`nodes, pool`next, pool`prev
      ensures Valid() && nodes == [curr] + rest
    {
      HookHead(head, curr, rest);
      head := curr;
      nodes := [curr] + rest;
    }

    /** The CIPHER_KILL branch. */
    method Remove(curr: Node, ghost k: nat)
      requires Valid() && k < |nodes| && nodes[k] == curr
      modifies this, pool`next, pool`prev, curr`active
      ensures Valid() && nodes == Without(old(nodes), k)
      ensures !curr.active && curr.next == null && curr.prev == null
    {
      ghost var rest := Without(nodes, k);
      WithoutAt(nodes, k);
      if head == curr {
        head := curr.next;
      }
      if tail == curr {
        tail := curr.prev;
      }
      assert head == At(rest, 0) && tail == At(rest, |rest| - 1);
      Unhook(curr, k);
      curr.active := false;
      curr.next := null;
      curr.prev := null;
      nodes := rest;
    }

    ghost function Entries(): seq<Entry>
      requires Valid()
      reads this, pool
    {
      EntriesOf(nodes)
    }

    /** ssl_cipher_apply_rule */
    method ApplyRule(q: Criteria, rule: Rule)
      requires Valid()
      modifies this, pool
      ensures Valid() && Entries() == RuleApplied(old(Entries()), q, rule)
    {
      ghost var was, es := nodes, Entries();
      ghost var flags := seq(|es|, i requires 0 <= i < |es| => es[i].active);
      ghost var chosen := set j | 0 <= j < |nodes| && Selects(q, rule, es[j]) :: nodes[j];
      ChosenNodes(nodes, es, chosen, q, rule);
      if rule == Del {
        TraverseBackward(q, was, chosen, flags);
      } else {
        TraverseForward(q, rule, was, chosen, flags);
      }
      RuleOnEntries(was, chosen, es, Selector(q, rule), rule);
    }

    method TraverseForward(q: Criteria, rule: Rule, ghost was: seq<Node>, ghost chosen: set<Node>, ghost flags: seq<bool>)
      requires Valid() && was == nodes && HasFlags(was, flags) && rule != Del
      requires forall j :: 0 <= j < |was| ==> (was[j] in chosen) == Selects(q, rule, Entry(was[j].cipher, flags[j]))
      modifies this, pool
      ensures Valid() && nodes == Reordered(was, chosen, rule)
      ensures Flags(was, chosen, flags, rule, 0, |was|)
    {
      StartForward(was, chosen, flags, rule);
      Forward(q, rule, was, chosen, flags);
      EndForward(was, chosen, flags, rule);
    }

    method TraverseBackward(q: Criteria, ghost was: seq<Node>, ghost chosen: set<Node>, ghost flags: seq<bool>)
      requires Valid() && was == nodes && HasFlags(was, flags)
      requires forall j :: 0 <= j < |was| ==> (was[j] in chosen) == Selects(q, Del, Entry(was[j].cipher, flags[j]))
      modifies this, pool
      ensures Valid() && nodes == Reordered(was, chosen, Del)
      ensures Flags(was, chosen, flags, Del, 0, |was|)
    {
      StartBackward(was, chosen, flags);
      Backward(q, was, chosen, flags);
      EndBackward(was, chosen, flags);
    }

    lemma StartForward(was: seq<Node>, chosen: set<Node>, flags: seq<bool>, rule: Rule)
      requires Valid() && was == nodes && HasFlags(was, flags)
      ensures VisitedForward(was, chosen, flags, rule, 0)
    {
      ForwardOrderEnds(was, chosen, rule);
    }

    lemma EndForward(was: seq<Node>, chosen: set<Node>, flags: seq<bool>, rule: Rule)
      requires |flags| == |was| && VisitedForward(was, chosen, flags, rule, |was|) && rule != Del
      ensures nodes == Reordered(was, chosen, rule)
    {
      ForwardOrderEnds(was, chosen, rule);
    }

    lemma StartBackward(was: seq<Node>, chosen: set<Node>, flags: seq<bool>)
      requires Valid() && was == nodes && HasFlags(was, flags)
      ensures VisitedBackward(was, chosen, flags, |was|)
    {
      BackwardOrderEnds(was, chosen);
    }

    lemma EndBackward(was: seq<Node>, chosen: set<Node>, flags: seq<bool>)
      requires |flags| == |was| && VisitedBackward(was, chosen, flags, 0)
      ensures nodes == Reordered(was, chosen, Del)
    {
      BackwardOrderEnds(was, chosen);
    }

    /** What the loop body does to one node, for ADD, ORD and KILL. */
    method VisitForward(q: Criteria, rule: Rule, curr: Node, ghost a: seq<Node>, ghost b: seq<Node>)
      requires Valid() && nodes == a + [curr] + b && rule != Del
      modifies this, pool`next, pool`prev, curr`active
      ensures Valid()
      ensures if Matches(q, curr.cipher) && Touches(rule, old(curr.active))
              then nodes == a + b + (if rule == Kill then [] else [curr]) && curr.active == NewFlag(rule)
              else nodes == old(nodes) && curr.active == old(curr.active)
    {
      WithoutMiddle(a, curr, b);
      ghost var k := |a|;
      if Matches(q, curr.cipher) {
        if rule == Add {
          if !curr.active {
            AppendTail(curr, k);
            curr.active := true;
          }
        } else if rule == Ord {
          if curr.active {
            AppendTail(curr, k);
          }
        } else {
          Remove(curr, k);
        }
      }
    }

    /** The list and the flags after the first `i` nodes were visited from the head. */
    ghost predicate VisitedForward(was: seq<Node>, chosen: set<Node>, flags: seq<bool>, rule: Rule, i: nat)
      requires |flags| == |was|
      reads this, pool, was
    {
      && i <= |was| && Distinct(was) && Valid()
      && nodes == ForwardOrder(was, chosen, rule, i)
      && Flags(was, chosen, flags, rule, 0, i)
    }

    /** One round of the loop for ADD, ORD and KILL. */
    method ForwardStep(q: Criteria, rule: Rule, curr: Node, ghost was: seq<Node>, ghost chosen: set<Node>, ghost flags: seq<bool>, ghost i: nat)
      returns (next: Node?)
      requires |flags| == |was| && i < |was| && curr == was[i] && rule != Del
      requires VisitedForward(was, chosen, flags, rule, i)
      requires (was[i] in chosen) == Selects(q, rule, Entry(was[i].cipher, flags[i]))
      modifies this, pool
      ensures VisitedForward(was, chosen, flags, rule, i + 1)
      ensures i + 1 < |was| ==> next == was[i + 1]
    {
      ghost var a, b := ForwardOrderStep(was, chosen, rule, i);
      assert nodes[|a|] == curr;
      NextNode(nodes, a, curr, b);
      next := curr.next;
      VisitForward(q, rule, curr, a, b);
    }

    /** The loop for ADD, ORD and KILL, from head to tail. */
    method Forward(q: Criteria, rule: Rule, ghost was: seq<Node>, ghost chosen: set<Node>, ghost flags: seq<bool>)
      requires |flags| == |was| && VisitedForward(was, chosen, flags, rule, 0) && rule != Del
      requires head == At(was, 0) && tail == At(was, |was| - 1)
      requires forall j :: 0 <= j < |was| ==> (was[j] in chosen) == Selects(q, rule, Entry(was[j].cipher, flags[j]))
      modifies this, pool
      ensures VisitedForward(was, chosen, flags, rule, |was|)
    {
      var next, last, curr: Node? := head, tail, null;
      ghost var i := 0;
      while curr != last
        invariant VisitedForward(was, chosen, flags, rule, i)
        invariant last == At(was, |was| - 1) && curr == At(was, i - 1) && (i < |was| ==> next == was[i])
        decreases |was| - i
      {
        assert i < |was|;
        curr := next;
        next := ForwardStep(q, rule, curr, was, chosen, flags, i);
        i := i + 1;
      }
      assert i == |was|;
    }

    /** What the loop body does to one node, for DEL. */
    method VisitBackward(q: Criteria, curr: Node, ghost a: seq<Node>, ghost b: seq<Node>)
      requires Valid() && nodes == a + [curr] + b
      modifies this, pool`next, pool`prev, curr`active
      ensures Valid()
      ensures if Matches(q, curr.cipher) && old(curr.active)
              then nodes == [curr] + (a + b) && !curr.active
              else nodes == old(nodes) && curr.active == old(curr.active)
    {
      WithoutMiddle(a, curr, b);
      if Matches(q, curr.cipher) {
        if curr.active {
          AppendHead(curr, |a|);
          curr.active := false;
        }
      }
    }

    /** The list and the flags after the nodes from `i` on were visited from the tail. */
    ghost predicate VisitedBackward(was: seq<Node>, chosen: set<Node>, flags: seq<bool>, i: nat)
      requires |flags| == |was|
      reads this, pool, was
    {
      && i <= |was| && Distinct(was) && Valid()
      && nodes == BackwardOrder(was, chosen, i)
      && Flags(was, chosen, flags, Del, i, |was|)
    }

    /** One round of the loop for DEL. */
    method BackwardStep(q: Criteria, curr: Node, ghost was: seq<Node>, ghost chosen: set<Node>, ghost flags: seq<bool>, ghost i: nat)
      returns (next: Node?)
      requires |flags| == |was| && i < |was| && curr == was[i]
      requires VisitedBackward(was, chosen, flags, i + 1)
      requires (was[i] in chosen) == Selects(q, Del, Entry(was[i].cipher, flags[i]))
      modifies this, pool
      ensures VisitedBackward(was, chosen, flags, i)
      ensures i > 0 ==> next == was[i - 1]
    {
      ghost var a, b := BackwardOrderStep(was, chosen, i);
      assert nodes[|a|] == curr;
      NextNode(nodes, a, curr, b);
      next := curr.prev;
      VisitBackward(q, curr, a, b);
    }

    /** The loop for DEL, from tail to head. */
    method Backward(q: Criteria, ghost was: seq<Node>, ghost chosen: set<Node>, ghost flags: seq<bool>)
      requires |flags| == |was| && VisitedBackward(was, chosen, flags, |was|)
      requires head == At(was, 0) && tail == At(was, |was| - 1)
      requires forall j :: 0 <= j < |was| ==> (was[j] in chosen) == Selects(q, Del, Entry(was[j].cipher, flags[j]))
      modifies this, pool
      ensures VisitedBackward(was, chosen, flags, 0)
    {
      var next, last, curr: Node? := tail, head, null;
      ghost var i := |was|;
      while curr != last
        invariant 0 <= i <= |was| && VisitedBackward(was, chosen, flags, i)
        invariant last == At(was, 0) && curr == At(was, i) && (i > 0 ==> next == was[i - 1])
        decreases i
      {
        assert i > 0;
        curr := next;
        next := BackwardStep(q, curr, was, chosen, flags, i - 1);
        i := i - 1;
      }
      assert i == 0;
    }

    /** The highest strength in use. */
    method TopStrength() returns (top: int)
      requires Valid()
      requires forall i :: 0 <= i < |nodes| && nodes[i].active ==> nodes[i].cipher.strengthBits >= 0
      ensures top >= 0 && StrengthsIn(Entries(), top)
    {
      top := 0;
      var curr := head;
      ghost var i := 0;
      while curr != null
        invariant 0 <= i <= |nodes| && curr == At(nodes, i) && top >= 0
        invariant forall j :: 0 <= j < i && nodes[j].active ==> nodes[j].cipher.strengthBits <= top
        decreases |nodes| - i
      {
        assert nodes[i].next == At(nodes, i + 1);
        if curr.active && curr.cipher.strengthBits > top {
          top := curr.cipher.strengthBits;
        }
        curr := curr.next;
        i := i + 1;
      }
    }

    /** How often each strength is used; what matters later is whether it is used at all. */
    method CountStrengths(top: int) returns (uses: array<int>)
      requires Valid() && top >= 0 && StrengthsIn(Entries(), top)
      ensures fresh(uses) && uses.Length == top + 1
      ensures forall b :: 0 <= b <= top ==> (uses[b] > 0 <==> Chosen(Entries(), Exactly(b), true) != [])
    {
      ghost var es := Entries();
      uses := Count(top, es);
      assert Entries() == es;
      forall b | 0 <= b <= top ensures uses[b] > 0 <==> Chosen(es, Exactly(b), true) != [] {
        UsedOrNot(es, b);
      }
    }

    /** The counting pass. */
    method Count(top: int, ghost es: seq<Entry>) returns (uses: array<int>)
      requires Valid() && es == Entries() && top >= 0 && StrengthsIn(es, top)
      ensures fresh(uses) && uses.Length == top + 1
      ensures forall b :: 0 <= b <= top ==>
                (uses[b] > 0 <==> exists j :: 0 <= j < |es| && es[j].active && es[j].cipher.strengthBits == b)
    {
      uses := new int[top + 1];
      forall b | 0 <= b <= top { uses[b] := 0; }
      var curr := head;
      ghost var i := 0;
      while curr != null
        invariant 0 <= i <= |nodes| && curr == At(nodes, i)
        invariant forall b :: 0 <= b <= top ==> uses[b] >= 0
        invariant forall b :: 0 <= b <= top ==>
                    (uses[b] > 0 <==> UsedTo(es, i, b))
        decreases |nodes| - i
      {
        assert nodes[i].next == At(nodes, i + 1);
        assert es[i] == Entry(curr.cipher, curr.active);
        UsedNext(es, i);
        if curr.active {
          uses[curr.cipher.strengthBits] := uses[curr.cipher.strengthBits] + 1;
        }
        curr := curr.next;
        i := i + 1;
      }
    }

    /** One round of the descending loop. */
    method SortRound(ghost es: seq<Entry>, top: int, i: int, used: bool)
      requires Valid() && 0 <= i <= top
      requires used <==> Chosen(es, Exactly(i), true) != []
      requires Entries() == Chosen(es, Above(i), false) + Descending(es, top, i + 1)
      modifies this, pool
      ensures Valid()
      ensures Entries() == Chosen(es, Above(i - 1), false) + Descending(es, top, i)
    {
      if used {
        SortStep(es, top, i);
        ApplyRule(ByStrength(i), Ord);
      } else {
        SortSkip(es, top, i);
      }
    }

    /** The descending loop. */
    method SortLoop(ghost es: seq<Entry>, top: int, uses: array<int>)
      requires Valid() && es == Entries() && top >= 0 && StrengthsIn(es, top) && uses.Length == top + 1
      requires forall b :: 0 <= b <= top ==> (uses[b] > 0 <==> Chosen(es, Exactly(b), true) != [])
      modifies this, pool
      ensures Valid() && Entries() == Chosen(es, Above(-1), false) + Descending(es, top, 0)
    {
      ghost var used := uses[..];
      assert Entries() == Chosen(es, Above(top), false) + Descending(es, top, top + 1) by { SortEnds(es, top); }
      var i := top;
      while i >= 0
        invariant -1 <= i <= top && Valid() && uses[..] == used
        invariant Entries() == Chosen(es, Above(i), false) + Descending(es, top, i + 1)
      {
        assert uses[i] == used[i];
        SortRound(es, top, i, uses[i] > 0);
        i := i - 1;
      }
    }

    /** ssl_cipher_strength_sort */
    method StrengthSort() returns (ghost top: nat)
      requires Valid()
      requires forall i :: 0 <= i < |nodes| && nodes[i].active ==> nodes[i].cipher.strengthBits >= 0
      modifies this, pool
      ensures Valid()
      ensures StrengthsIn(old(Entries()), top) && Entries() == StrengthSorted(old(Entries()), top)
    {
      var max := TopStrength();
      var uses := CountStrengths(max);
      top := max;
      ghost var es := Entries();
      SortLoop(es, max, uses);
      SortEnds(es, max);
    }
  }
}
