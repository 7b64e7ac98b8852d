/**
 * The intrusive linked list library (src/common/memory/list.c).
 *
 * A list is only a head pointer; the links live inside the items, so an operation may touch the
 * `next` field of any member and of its argument, and of nothing else.  `items` is the list read
 * from head to tail.  The payload `data` stands for the rest of the structure a link is embedded in.
 */
module LinkedLists {

  class Node<T> {
    var next: Node?<T>
    var data: T

    constructor (data: T)
      ensures this.data == data && next == null
    {
      this.data := data;
      next := null;
    }
  }

  ghost function At<T>(s: seq<Node<T>>, i: nat): Node?<T> {
    if i < |s| then s[i] else null
  }

  ghost predicate Distinct<T>(s: seq<T>) {
    forall i, j :: 0 <= i < j < |s| ==> s[i] != s[j]
  }

  /** `s` with its first occurrence of `x` taken out. */
  ghost function Without<T>(s: seq<T>, x: T): seq<T> {
    if s == [] then [] else if s[0] == x then s[1..] else [s[0]] + Without(s[1..], x)
  }

  lemma {:induction false} WithoutMember<T>(s: seq<T>, x: T, i: nat)
    requires i < |s| && s[i] == x && x !in s[..i]
    ensures Without(s, x) == s[..i] + s[i + 1..]
  {
    if i == 0 {
    } else {
      assert s[..i][0] == s[0];
      assert s[1..][..i - 1] == s[..i][1..];
      WithoutMember(s[1..], x, i - 1);
    }
  }

  lemma {:induction false} WithoutStranger<T>(s: seq<T>, x: T)
    requires x !in s
    ensures Without(s, x) == s
  {
    if s != [] {
      WithoutStranger(s[1..], x);
    }
  }

  lemma DistinctParts<T>(s: seq<T>, i: nat)
    requires Distinct(s) && i < |s|
    ensures Distinct(s[..i] + s[i + 1..]) && s[i] !in s[..i] + s[i + 1..]
  {
    var t := s[..i] + s[i + 1..];
    assert forall k :: 0 <= k < |t| ==> t[k] == if k < i then s[k] else s[k + 1];
  }

  lemma DistinctInsert<T>(s: seq<T>, i: nat, x: T, t: seq<T>)
    requires Distinct(s) && i <= |s| && x !in s && t == s[..i] + [x] + s[i..]
    ensures Distinct(t)
  {
    assert forall k :: 0 <= k < |t| ==> t[k] == if k < i then s[k] else if k == i then x else s[k - 1];
  }

  class List<T> {
    var head: Node?<T>
    ghost var items: seq<Node<T>>

    ghost predicate Valid()
      reads this, items
    {
      && Distinct(items)
      && head == At(items, 0)
      && forall i {:trigger items[i].next} :: 0 <= i < |items| ==> items[i].next == At(items, i + 1)
    }

    constructor Init()
      ensures Valid() && items == []
    {
      head := null;
      items := [];
    }

    /** The last member, or null for an empty list. */
    method Tail() returns (r: Node?<T>)
      requires Valid()
      ensures if items == [] then r == null else r == items[|items| - 1]
    {
      if head == null {
        return null;
      }
      r := head;
      ghost var i := 0;
      while r.next != null
        invariant i < |items| && r == items[i]
        decreases |items| - i
      {
        r := r.next;
        i := i + 1;
      }
    }

    method Length() returns (n: nat)
      requires Valid()
      ensures n == |items|
    {
      n := 0;
      var l := head;
      while l != null
        invariant n <= |items| && l == At(items, n)
        decreases |items| - n
      {
        n := n + 1;
        l := l.next;
      }
    }

    /** Takes out member `l`, whose predecessor is `r` (null when `l` is the head). */
    method Unlink(r: Node?<T>, l: Node<T>, ghost i: nat)
      requires Valid() && i < |items| && l == items[i]
      requires r == if i == 0 then null else items[i - 1]
      modifies this, items`next
      ensures Valid() && items == old(items[..i] + items[i + 1..])
      ensures l.next == null
    {
      if r == null {
        head := l.next;
      } else {
        r.next := l.next;
      }
      l.next := null;
      ghost var was := items;
      DistinctParts(was, i);
      items := was[..i] + was[i + 1..];
      forall k | 0 <= k < |items|
        ensures items[k].next == At(items, k + 1)
      {
        assert items[k] == if k < i then was[k] else was[k + 1];
      }
    }

    /** Unlinks `item`; a node that is not a member is left alone. */
    method Remove(item: Node<T>)
      requires Valid()
      modifies this, items`next
      ensures Valid() && items == Without(old(items), item)
      ensures item in old(items) ==> item.next == null
    {
      if head == null {
        return;
      }
      var r: Node?<T> := null;
      var l := head;
      ghost var i := 0;
      while l != null
        invariant i <= |items| && l == At(items, i)
        invariant r == if i == 0 then null else items[i - 1]
        invariant item !in items[..i]
        decreases |items| - i
      {
        if l == item {
          WithoutMember(items, item, i);
          Unlink(r, l, i);
          return;
        }
        r := l;
        l := l.next;
        i := i + 1;
      }
      WithoutStranger(items, item);
    }

    /** Moves or adds `item` to the end. */
    method Add(item: Node<T>)
      requires Valid()
      modifies this, items`next, item`next
      ensures Valid() && items == Without(old(items), item) + [item]
    {
      hide Without;
      Remove(item);
      WithoutHasNot(old(items), item);
      item.next := null;
      var l := Tail();
      if l == null {
        head := item;
      } else {
        assert l in items;
        l.next := item;
      }
      items := items + [item];
    }

    /** Moves or adds `item` to the front. */
    method Push(item: Node<T>)
      requires Valid()
      modifies this, items`next, item`next
      ensures Valid() && items == [item] + Without(old(items), item)
    {
      Remove(item);
      WithoutHasNot(old(items), item);
      item.next := head;
      head := item;
      items := [item] + items;
    }

    /** Takes off the first member, whose own link is left as it was. */
    method Pop() returns (l: Node?<T>)
      requires Valid()
      modifies this
      ensures Valid() && l == At(old(items), 0)
      ensures items == if old(items) == [] then [] else old(items)[1..]
    {
      l := head;
      if head != null {
        head := head.next;
        items := items[1..];
      }
    }

    /** Takes off the last member. */
    method Chop() returns (l: Node?<T>)
      requires Valid()
      modifies this, items`next
      ensures Valid()
      ensures old(items) == [] ==> l == null && items == []
      ensures old(items) != [] ==> items == old(items[..|items| - 1]) && l == old(items[|items| - 1])
    {
      if head == null {
        return null;
      }
      if head.next == null {
        l := head;
        head := null;
        items := [];
        return;
      }
      var p := head;
      ghost var i := 0;
      while p.next.next != null
        invariant i + 1 < |items| && p == items[i]
        decreases |items| - i
      {
        p := p.next;
        i := i + 1;
      }
      l := p.next;
      p.next := null;
      items := items[..i + 1];
    }

    /** Links a newcomer in right after member `prev`; without one, moves or adds `item` to the front. */
    method Insert(prev: Node?<T>, item: Node<T>, ghost i: nat)
      requires Valid()
      requires prev != null ==> item !in items && i < |items| && prev == items[i]
      modifies this, items`next, item`next
      ensures Valid()
      ensures prev == null ==> items == [item] + Without(old(items), item)
      ensures prev != null ==> items == old(items[..i + 1] + [item] + items[i + 1..])
    {
      if prev == null {
        Push(item);
      } else {
        item.next := prev.next;
        prev.next := item;
        ghost var was := items;
        items := was[..i + 1] + [item] + was[i + 1..];
        DistinctInsert(was, i + 1, item, items);
        forall k | 0 <= k < |items|
          ensures items[k].next == At(items, k + 1)
        {
          if k < i {
            assert items[k] == was[k] && items[k + 1] == was[k + 1];
          } else if k == i {
            assert items[k] == prev && items[k + 1] == item;
          } else if k > i + 1 {
            assert items[k] == was[k - 1];
            assert At(items, k + 1) == At(was, k);
          }
        }
      }
    }
  }

  lemma {:induction false} WithoutHasNot<T>(s: seq<T>, x: T)
    requires Distinct(s)
    ensures x !in Without(s, x) && Distinct(Without(s, x))
    ensures forall y :: y in Without(s, x) ==> y in s
  {
    if x in s {
      var i :| 0 <= i < |s| && s[i] == x;
      WithoutMember(s, x, i);
    } else {
      WithoutStranger(s, x);
    }
  }
}
