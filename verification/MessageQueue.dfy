/** ssl/pqueue.c: a singly linked list kept strictly sorted by an eight byte
    big-endian priority. */
module MessageQueue {
  import opened Asn1

  lemma {:induction false} FirstDifference(a: seq<byte>, b: seq<byte>, i: nat)
    requires |a| == |b| && i < |a| && a[..i] == b[..i] && a[i] < b[i]
    ensures FromBytes(a) < FromBytes(b)
  {
    var n := |a| - 1;
    if i == n {
      assert a[..n] == b[..n];
    } else {
      assert a[..n][..i] == a[..i] && b[..n][..i] == b[..i];
      FirstDifference(a[..n], b[..n], i);
    }
  }

  /** memcmp compares big-endian numbers. */
  method Memcmp(a: seq<byte>, b: seq<byte>) returns (cmp: int)
    requires |a| == |b|
    ensures cmp > 0 <==> FromBytes(a) > FromBytes(b)
    ensures cmp == 0 <==> FromBytes(a) == FromBytes(b)
    ensures cmp == 0 <==> a == b
  {
    for i := 0 to |a|
      invariant a[..i] == b[..i]
    {
      if a[i] != b[i] {
        if a[i] < b[i] {
          FirstDifference(a, b, i);
        } else {
          FirstDifference(b, a, i);
        }
        return (a[i] as int) - (b[i] as int);
      }
    }
    assert a == a[..|a|] && b == b[..|b|];
    cmp := 0;
  }

  /** pitem */
  class Item<T> {
    const priority: seq<byte>
    const data: T
    var next: Item?<T>

    constructor (priority: seq<byte>, data: T)
      ensures this.priority == priority && this.data == data && next == null
    {
      this.priority, this.data, next := priority, data, null;
    }

    ghost function Key(): nat { FromBytes(priority) }
  }

  /** The number of items with a smaller key is where a key belongs in a sorted list. */
  ghost predicate Belongs<T>(list: seq<Item<T>>, key: nat, k: nat) {
    k <= |list|
    && (forall i :: 0 <= i < k ==> list[i].Key() < key)
    && (forall i :: k <= i < |list| ==> list[i].Key() > key)
  }

  lemma StaysSorted<T>(was: seq<Item<T>>, item: Item<T>, k: nat)
    requires Belongs(was, item.Key(), k) && forall i, j :: 0 <= i < j < |was| ==> was[i].Key() < was[j].Key()
    ensures var now := was[..k] + [item] + was[k..];
            forall i, j :: 0 <= i < j < |now| ==> now[i].Key() < now[j].Key()
  {
    var now := was[..k] + [item] + was[k..];
    forall i, j | 0 <= i < j < |now|
      ensures now[i].Key() < now[j].Key()
    {
      assert i < k ==> now[i] == was[i];
      assert i > k ==> now[i] == was[i - 1];
      assert j < k ==> now[j] == was[j];
      assert j > k ==> now[j] == was[j - 1];
    }
  }

  class Queue<T> {
    var items: Item?<T>
    ghost var list: seq<Item<T>>

    ghost predicate Link(i: int)
      requires 0 <= i < |list|
      reads this, list
    {
      |list[i].priority| == 8 && list[i].next == if i + 1 < |list| then list[i + 1] else null
    }

    /** The chain from `items` is `list`, with strictly increasing priorities. */
    ghost predicate Valid()
      reads this, list
    {
      items == (if list == [] then null else list[0])
      && (forall i {:trigger list[i].next} {:trigger Link(i)} :: 0 <= i < |list| ==> Link(i))
      && Sorted()
    }

    ghost predicate Sorted()
      reads this
    {
      forall i, j :: 0 <= i < j < |list| ==> list[i].Key() < list[j].Key()
    }

    ghost predicate HasKey(key: nat)
      reads this
    {
      exists i :: 0 <= i < |list| && list[i].Key() == key
    }

    /** pqueue_new */
    constructor ()
      ensures Valid() && list == []
    {
      items, list := null, [];
    }

    /** pqueue_insert: in its place by priority, and refused exactly when the priority is taken. */
    method Insert(item: Item<T>) returns (ok: bool, ghost k: nat)
      requires Valid() && item.next == null && |item.priority| == 8
      modifies this, list`next, item`next
      ensures Valid()
      ensures ok == !old(HasKey(item.Key()))
      ensures !ok ==> list == old(list)
      ensures ok ==> k <= |old(list)| && list == old(list)[..k] + [item] + old(list)[k..]
      ensures ok ==> Belongs(old(list), item.Key(), k) && (k < |old(list)| ==> old(list)[k].Key() > item.Key())
    {
      k := 0;
      if items == null {
        items, list := item, [item];
        return true, 0;
      }
      var curr, next, taken;
      curr, next, taken, k := Place(item.priority);
      if !taken {
        Splice(curr, item, next, k);
      }
      ok := !taken;
    }

    /** The search of pqueue_insert: the neighbours a new item would have. */
    method Place(priority: seq<byte>) returns (curr: Item?<T>, next: Item?<T>, taken: bool, ghost k: nat)
      requires Valid() && |priority| == 8
      ensures taken == HasKey(FromBytes(priority))
      ensures !taken ==> Belongs(list, FromBytes(priority), k)
      ensures !taken ==> next == if k < |list| then list[k] else null
      ensures !taken ==> curr == if k > 0 then list[k - 1] else null
    {
      curr, next, k := null, items, 0;
      while next != null
        invariant k <= |list|
        invariant next == if k < |list| then list[k] else null
        invariant curr == if k > 0 then list[k - 1] else null
        invariant forall i :: 0 <= i < k ==> list[i].Key() < FromBytes(priority)
        decreases |list| - k
      {
        assert Link(k);
        var cmp := Memcmp(next.priority, priority);
        if cmp > 0 {
          return curr, next, false, k;
        } else if cmp == 0 {
          return curr, next, true, k;
        }
        curr := next;
        next := next.next;
        k := k + 1;
      }
      taken := false;
    }

    /** The item is linked in between two neighbours. */
    method Splice(curr: Item?<T>, item: Item<T>, next: Item?<T>, ghost k: nat)
      requires Valid() && Belongs(list, item.Key(), k) && |item.priority| == 8 && list != []
      requires next == if k < |list| then list[k] else null
      requires curr == if k > 0 then list[k - 1] else null
      modifies this, list`next, item`next
      ensures Valid() && list == old(list)[..k] + [item] + old(list)[k..]
    {
      ghost var was := list;
      assert forall i :: 0 <= i < |was| ==> was[i] != item by {
        assert forall i :: 0 <= i < |was| ==> was[i].Key() != item.Key();
      }
      assert forall i :: 0 <= i < |was| && i != k - 1 ==> was[i] != curr by {
        assert forall i :: 0 <= i < |was| && i != k - 1 ==> k > 0 ==> was[i].Key() != was[k - 1].Key();
      }
      forall i | 0 <= i < |was|
        ensures |was[i].priority| == 8 && was[i].next == if i + 1 < |was| then was[i + 1] else null
      {
        assert Link(i);
      }
      item.next := next;
      if curr == null {
        items := item;
      } else {
        curr.next := item;
      }
      list := was[..k] + [item] + was[k..];
      Relinked(item, k, was);
    }

    lemma Relinked(item: Item<T>, k: nat, was: seq<Item<T>>)
      requires k <= |was| && list == was[..k] + [item] + was[k..]
      requires |item.priority| == 8 && Belongs(was, item.Key(), k)
      requires forall i, j :: 0 <= i < j < |was| ==> was[i].Key() < was[j].Key()
      requires items == if k == 0 then item else was[0]
      requires item.next == if k < |was| then was[k] else null
      requires forall i {:trigger was[i].next} :: 0 <= i < |was| ==> |was[i].priority| == 8
      requires forall i {:trigger was[i].next} :: 0 <= i < |was| && i != k - 1 ==>
                 was[i].next == if i + 1 < |was| then was[i + 1] else null
      requires k > 0 ==> was[k - 1].next == item
      ensures Valid()
    {
      StaysSorted(was, item, k);
      forall i | 0 <= i < |list|
        ensures Link(i)
      {
        if i < k - 1 {
          assert list[i] == was[i] && list[i + 1] == was[i + 1] && was[i].next == was[i + 1];
        } else if i == k - 1 {
          assert list[i] == was[k - 1] && list[i + 1] == item && was[k - 1].next == item;
        } else if i > k {
          assert list[i] == was[i - 1] && (i + 1 < |list| ==> list[i + 1] == was[i]);
          assert was[i - 1].next == if i < |was| then was[i] else null;
        }
      }
    }

    /** pqueue_peek */
    method Peek() returns (item: Item?<T>)
      requires Valid()
      ensures item == if list == [] then null else list[0]
    {
      item := items;
    }

    /** pqueue_pop: the item of smallest priority leaves. */
    method Pop() returns (item: Item?<T>)
      requires Valid()
      modifies this
      ensures Valid()
      ensures old(list) == [] ==> item == null && list == []
      ensures old(list) != [] ==> item == old(list)[0] && list == old(list)[1..]
    {
      item := items;
      if items != null {
        ghost var was := list;
        forall i | 0 <= i < |was|
          ensures |was[i].priority| == 8 && was[i].next == if i + 1 < |was| then was[i + 1] else null
        {
          assert Link(i);
        }
        items := items.next;
        list := list[1..];
        forall i | 0 <= i < |list|
          ensures Link(i)
        {
          assert list[i] == was[i + 1];
          assert was[i + 1].next == if i + 2 < |was| then was[i + 2] else null;
        }
      }
    }

    /** pqueue_find: the item with this priority, if there is one. */
    method Find(priority: seq<byte>) returns (item: Item?<T>, ghost k: nat)
      requires Valid() && |priority| == 8
      ensures item == null <==> !HasKey(FromBytes(priority))
      ensures item != null ==> k < |list| && list[k] == item && item.priority == priority
    {
      k := 0;
      item := items;
      while item != null
        invariant k <= |list| && item == if k < |list| then list[k] else null
        invariant forall i :: 0 <= i < k ==> list[i].Key() != FromBytes(priority)
        decreases |list| - k
      {
        assert Link(k);
        var cmp := Memcmp(item.priority, priority);
        if cmp == 0 {
          return;
        }
        item := item.next;
        k := k + 1;
      }
    }
  }
}
