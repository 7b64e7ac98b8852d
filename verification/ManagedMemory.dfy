/**
 * The compacting allocator (src/common/memory/mmem.c).
 *
 * Blocks lie in `memory` in list order, without gap or overlap; freeing one slides all later bytes
 * down and rewrites the pointers of all later blocks.  `contents` gives the bytes of every block.
 */
module ManagedMemory {
  import opened Bytes
  import opened LinkedLists

  /** The part of `struct mmem` behind the link: a size and an offset into `memory`. */
  datatype Extent = Extent(size: nat, ptr: nat)

  /** Blocks with these extents hold these bytes and fill [0, used) in order, with no gap or overlap. */
  ghost predicate Tiled(mem: seq<byte>, used: nat, extents: seq<Extent>, contents: seq<seq<byte>>) {
    && used <= |mem|
    && |extents| == |contents|
    && mem[..used] == Flat(contents)
    && forall i :: 0 <= i < |contents| ==> extents[i] == Extent(|contents[i]|, |Flat(contents[..i])|)
  }

  /** The extents of blocks that hold these bytes. */
  ghost function Layout(contents: seq<seq<byte>>): seq<Extent> {
    seq(|contents|, i requires 0 <= i < |contents| => Extent(|contents[i]|, |Flat(contents[..i])|))
  }

  /** Block `i` lies inside the used region and its pointer and size select exactly its bytes. */
  lemma {:induction false} TiledBytes(mem: seq<byte>, used: nat, extents: seq<Extent>, contents: seq<seq<byte>>, i: nat)
    requires Tiled(mem, used, extents, contents) && i < |contents|
    ensures var e := extents[i]; e.ptr + e.size <= used && mem[e.ptr..e.ptr + e.size] == contents[i]
  {
    FlatAround(contents, i);
    var e := extents[i];
    assert mem[e.ptr..e.ptr + e.size] == mem[..used][e.ptr..e.ptr + e.size];
  }

  /** Two blocks never share a byte. */
  lemma {:induction false} TiledApart(mem: seq<byte>, used: nat, extents: seq<Extent>,
                                      contents: seq<seq<byte>>, i: nat, j: nat)
    requires Tiled(mem, used, extents, contents) && i < j < |contents|
    ensures extents[i].ptr + extents[i].size <= extents[j].ptr
    decreases j
  {
    FlatAround(contents, j - 1);
    assert contents[..j - 1 + 1] == contents[..j];
    if i < j - 1 {
      TiledApart(mem, used, extents, contents, i, j - 1);
    }
  }

  /** The bytes behind the used region become a new last block. */
  lemma {:induction false} TiledExtend(mem: seq<byte>, used: nat, extents: seq<Extent>,
                                       contents: seq<seq<byte>>, size: nat)
    requires Tiled(mem, used, extents, contents) && used + size <= |mem|
    ensures Tiled(mem, used + size, extents + [Extent(size, used)], contents + [mem[used..used + size]])
  {
    var longer := contents + [mem[used..used + size]];
    FlatAround(longer, |contents|);
    assert longer[..|contents|] == contents && longer[..|contents| + 1] == longer;
    assert mem[..used + size] == mem[..used] + mem[used..used + size];
    assert forall i :: 0 <= i < |contents| ==> longer[..i] == contents[..i];
  }

  /** Overwriting the last block in place changes that block only. */
  lemma {:induction false} TiledRefill(mem: seq<byte>, mem': seq<byte>, used: nat, extents: seq<Extent>,
                                       contents: seq<seq<byte>>, bytes: seq<byte>)
    requires Tiled(mem, used, extents, contents) && contents != [] && |mem'| == |mem|
    requires var e := extents[|extents| - 1];
             && |bytes| == e.size && e.ptr + e.size <= used
             && mem'[..e.ptr] == mem[..e.ptr] && mem'[e.ptr..e.ptr + e.size] == bytes
    ensures Tiled(mem', used, extents, contents[..|contents| - 1] + [bytes])
  {
    var n := |contents| - 1;
    var p := extents[n].ptr;
    FlatAround(contents, n);
    assert contents[..n + 1] == contents;
    assert mem[..p] == mem[..used][..p];
    assert Tiled(mem', p, extents[..n], contents[..n]) by {
      assert forall i :: 0 <= i < n ==> contents[..n][..i] == contents[..i];
    }
    TiledExtend(mem', p, extents[..n], contents[..n], |bytes|);
    assert extents == extents[..n] + [Extent(|bytes|, p)];
  }

  ghost function Lowered(e: Extent, d: nat): Extent
    requires d <= e.ptr
  {
    Extent(e.size, e.ptr - d)
  }

  ghost function LoweredAll(es: seq<Extent>, d: nat): seq<Extent>
    requires forall k :: 0 <= k < |es| ==> d <= es[k].ptr
  {
    seq(|es|, k requires 0 <= k < |es| => Lowered(es[k], d))
  }

  /** Sliding the bytes behind block `i` down over it, and lowering the later pointers, tiles again. */
  lemma {:induction false} TiledRemove(mem: seq<byte>, mem': seq<byte>, used: nat,
                                       extents: seq<Extent>, extents': seq<Extent>, contents: seq<seq<byte>>, i: nat)
    requires Tiled(mem, used, extents, contents) && i < |contents| && |mem'| == |mem|
    requires var e := extents[i];
             e.ptr + e.size <= used && Slid(mem, mem', e.ptr, e.ptr + e.size, used - e.ptr - e.size)
    requires forall k :: i < k < |extents| ==> extents[i].size <= extents[k].ptr
    requires extents' == extents[..i] + LoweredAll(extents[i + 1..], extents[i].size)
    ensures Tiled(mem', used - extents[i].size, extents', contents[..i] + contents[i + 1..])
  {
    hide Slid, LoweredAll;
    SlidBytes(mem, mem', used, contents, i, extents[i].ptr);
    LoweredExtents(extents, extents', contents, i);
  }

  lemma {:induction false} SlidBytes(mem: seq<byte>, mem': seq<byte>, used: nat, contents: seq<seq<byte>>,
                                     i: nat, p: nat)
    requires used <= |mem| && mem[..used] == Flat(contents) && i < |contents| && p == |Flat(contents[..i])|
    requires p + |contents[i]| <= used && Slid(mem, mem', p, p + |contents[i]|, used - p - |contents[i]|)
    ensures mem'[..used - |contents[i]|] == Flat(contents[..i] + contents[i + 1..])
  {
    var q := p + |contents[i]|;
    FlatAround(contents, i);
    FlatAppend(contents[..i], contents[i + 1..]);
    hide Flat;
    assert mem[..p] == mem[..used][..p] && mem[q..used] == mem[..used][q..];
    assert mem'[..used - |contents[i]|] == mem'[..p] + mem'[p..used - |contents[i]|];
  }

  lemma {:induction false} LoweredExtents(extents: seq<Extent>, extents': seq<Extent>, contents: seq<seq<byte>>, i: nat)
    requires i < |contents| == |extents|
    requires forall k :: 0 <= k < |contents| ==> extents[k] == Extent(|contents[k]|, |Flat(contents[..k])|)
    requires forall k :: i < k < |extents| ==> extents[i].size <= extents[k].ptr
    requires extents' == extents[..i] + LoweredAll(extents[i + 1..], extents[i].size)
    ensures var left := contents[..i] + contents[i + 1..];
            |extents'| == |left| && forall k :: 0 <= k < |left| ==> extents'[k] == Extent(|left[k]|, |Flat(left[..k])|)
  {
    var left := contents[..i] + contents[i + 1..];
    forall k | 0 <= k < |extents'|
      ensures extents'[k] == Extent(|left[k]|, |Flat(left[..k])|)
    {
      OffsetWithout(contents, i, k);
      assert extents'[k] == if k < i then extents[k] else Lowered(extents[k + 1], extents[i].size);
    }
  }

  /** Where block `k` starts once block `i` is gone. */
  lemma {:induction false} OffsetWithout(contents: seq<seq<byte>>, i: nat, k: nat)
    requires i < |contents| && k < |contents| - 1
    ensures var left := contents[..i] + contents[i + 1..];
            && left[k] == contents[if k < i then k else k + 1]
            && |Flat(left[..k])| == if k < i then |Flat(contents[..k])| else |Flat(contents[..k + 1])| - |contents[i]|
  {
    var left := contents[..i] + contents[i + 1..];
    if k < i {
      assert left[..k] == contents[..k];
    } else {
      assert left[..k] == contents[..i] + contents[i + 1..k + 1];
      assert contents[..k + 1] == contents[..i + 1] + contents[i + 1..k + 1];
      FlatAround(contents, i);
      FlatAppend(contents[..i], contents[i + 1..k + 1]);
      FlatAppend(contents[..i + 1], contents[i + 1..k + 1]);
    }
  }

  /** `len` bytes have moved from `src` down to `dst`, and nothing below `dst` has changed. */
  ghost predicate Slid(was: seq<byte>, now: seq<byte>, dst: nat, src: nat, len: nat) {
    && dst <= src && src + len <= |was| == |now|
    && now[..dst] == was[..dst]
    && now[dst..dst + len] == was[src..src + len]
  }

  /** memmove towards lower addresses, which copies in ascending order. */
  method MoveDown(a: array<byte>, dst: nat, src: nat, len: nat)
    requires dst <= src && src + len <= a.Length
    modifies a
    ensures Slid(old(a[..]), a[..], dst, src, len)
  {
    ghost var was := a[..];
    for k := 0 to len
      invariant a[..dst] == was[..dst]
      invariant a[dst..dst + k] == was[src..src + k]
      invariant a[dst + k..] == was[dst + k..]
    {
      assert a[src + k] == a[dst + k..][src - dst] == was[src + k];
      a[dst + k] := a[src + k];
      assert a[dst + k + 1..] == was[dst + k..][1..];
    }
  }

  class Mmem {
    const memory: array<byte>
    const list: List<Extent>
    var avail: nat
    ghost var extents: seq<Extent>
    ghost var contents: seq<seq<byte>>

    ghost predicate Valid()
      reads this, memory, list, list.items
    {
      && list.Valid()
      && avail <= memory.Length
      && |extents| == |contents| == |list.items|
      && (forall i :: 0 <= i < |extents| ==> list.items[i].data == extents[i])
      && Tiled(memory[..], memory.Length - avail, extents, contents)
    }

    /** mmem_init: nothing allocated, all of `size` bytes available. */
    constructor (size: nat)
      ensures Valid() && contents == [] && avail == memory.Length == size
      ensures fresh(memory) && fresh(list)
    {
      memory := new byte[size](_ => 0);
      list := new List<Extent>.Init();
      avail := size;
      extents, contents := [], [];
    }

    /** Takes `size` bytes from the end of the used region, or refuses and changes nothing. */
    method Alloc(m: Node<Extent>, size: nat) returns (ok: bool)
      requires Valid() && m !in list.items
      modifies this, list, list.items`next, m
      ensures Valid()
      ensures ok <==> size <= old(avail)
      ensures !ok ==> avail == old(avail) && contents == old(contents) && list.items == old(list.items)
      ensures ok ==> avail == old(avail) - size && list.items == old(list.items) + [m] && m.data.size == size
      ensures ok ==> exists garbage :: |garbage| == size && contents == old(contents) + [garbage]
    {
      hide Tiled;
      if avail < size {
        return false;
      }
      ghost var items, es, cs, at := list.items, extents, contents, memory.Length - avail;
      WithoutStranger(items, m);
      list.Add(m);
      m.data := Extent(size, memory.Length - avail);
      avail := avail - size;
      TiledExtend(memory[..], at, es, cs, size);
      extents, contents := es + [m.data], cs + [memory[..][at..at + size]];
      assert forall i :: 0 <= i < |es| ==> list.items[i] == items[i] && items[i].data == es[i];
      return true;
    }

    /** memcpy of a name into the block allocated last. */
    method Fill(m: Node<Extent>, bytes: seq<byte>)
      requires Valid() && list.items != [] && m == list.items[|list.items| - 1]
      requires m.data.size == |bytes|
      modifies this`contents, memory
      ensures Valid()
      ensures contents == old(contents)[..|old(contents)| - 1] + [bytes]
    {
      ghost var was := memory[..];
      TiledBytes(was, memory.Length - avail, extents, contents, |contents| - 1);
      var p := m.data.ptr;
      for k := 0 to |bytes|
        modifies memory
        invariant memory[..p] == was[..p]
        invariant memory[p..p + k] == bytes[..k]
      {
        memory[p + k] := bytes[k];
      }
      TiledRefill(was, memory[..], memory.Length - avail, extents, contents, bytes);
      contents := contents[..|contents| - 1] + [bytes];
    }

    /** Frees block number `i`: every other block keeps its bytes, and the blocks tile again. */
    method Free(m: Node<Extent>, ghost i: nat)
      requires Valid() && i < |list.items| && m == list.items[i]
      modifies this, memory, list, list.items
      ensures Valid()
      ensures contents == old(contents[..i] + contents[i + 1..])
      ensures list.items == old(list.items[..i] + list.items[i + 1..])
      ensures avail == old(avail) + |old(contents)[i]|
    {
      hide Tiled;
      ghost var mem, es, used := memory[..], extents, memory.Length - avail;
      TiledBytes(mem, used, es, contents, i);
      LaterPointers(mem, used, es, contents, i);
      Squeeze(m, i);
      TiledRemove(mem, memory[..], used, es, extents, contents, i);
      contents := contents[..i] + contents[i + 1..];
    }

    /** mmem_alloc and then memcpy into the new block. */
    method AllocCopy(m: Node<Extent>, bytes: seq<byte>) returns (ok: bool)
      requires Valid() && m !in list.items
      modifies this, memory, list, list.items`next, m
      ensures Valid()
      ensures ok <==> |bytes| <= old(avail)
      ensures !ok ==> contents == old(contents) && list.items == old(list.items)
      ensures ok ==> list.items == old(list.items) + [m] && contents == old(contents) + [bytes]
    {
      ok := Alloc(m, |bytes|);
      if ok {
        Fill(m, bytes);
      }
    }

    /** Freeing the block allocated last moves nothing. */
    method FreeLast(m: Node<Extent>)
      requires Valid() && list.items != [] && m == list.items[|list.items| - 1]
      modifies this, memory, list, list.items
      ensures Valid()
      ensures contents == old(contents[..|contents| - 1])
      ensures list.items == old(list.items[..|list.items| - 1])
    {
      Free(m, |list.items| - 1);
    }

    /** The steps of mmem_free, in terms of extents only. */
    method Squeeze(m: Node<Extent>, ghost i: nat)
      requires Contiguous(i) && m == list.items[i]
      modifies this`avail, this`extents, memory, list, list.items
      ensures list.Valid() && list.items == old(list.items[..i] + list.items[i + 1..])
      ensures |extents| == |list.items| && forall k :: 0 <= k < |extents| ==> list.items[k].data == extents[k]
      ensures extents == old(extents[..i] + LoweredAll(extents[i + 1..], extents[i].size))
      ensures avail == old(avail + extents[i].size)
      ensures old(var e := extents[i]; e.ptr + e.size <= memory.Length - avail)
      ensures Slid(old(memory[..]), memory[..], old(extents[i].ptr), old(extents[i].ptr + extents[i].size),
                   old(memory.Length - avail - extents[i].ptr - extents[i].size))
    {
      Compact(m, i);
      avail := avail + m.data.size;
      extents := extents[..i] + LoweredAll(extents[i + 1..], extents[i].size);
      Drop(m, i);
    }

    /** Block `i` ends where block `i + 1`, or the unused region, starts. */
    ghost predicate Contiguous(i: nat)
      reads this, list, list.items
    {
      && list.Valid() && i < |list.items| == |extents| && avail <= memory.Length
      && (forall k :: 0 <= k < |extents| ==> list.items[k].data == extents[k])
      && (forall k :: i < k < |extents| ==> extents[i].size <= extents[k].ptr)
      && extents[i].ptr + extents[i].size ==
         (if i + 1 < |extents| then extents[i + 1].ptr else memory.Length - avail)
      && extents[i].ptr + extents[i].size <= memory.Length - avail
    }

    /** Unlinks block number `i`, whose extent is no longer recorded. */
    method Drop(m: Node<Extent>, ghost i: nat)
      requires list.Valid() && i < |list.items| && m == list.items[i]
      requires |extents| == |list.items| - 1
      requires forall k :: 0 <= k < |extents| ==> extents[k] == list.items[if k < i then k else k + 1].data
      modifies list, list.items`next
      ensures list.Valid() && list.items == old(list.items[..i] + list.items[i + 1..])
      ensures forall k :: 0 <= k < |extents| ==> extents[k] == list.items[k].data
    {
      WithoutMember(list.items, m, i);
      list.Remove(m);
    }

    /** The memmove and the pointer fix-up of mmem_free. */
    method Compact(m: Node<Extent>, ghost i: nat)
      requires Contiguous(i) && m == list.items[i]
      modifies memory, list.items`data
      ensures list.Valid()
      ensures var e := extents[i];
              Slid(old(memory[..]), memory[..], e.ptr, e.ptr + e.size, memory.Length - avail - e.ptr - e.size)
      ensures forall k :: 0 <= k < |extents| ==>
                list.items[k].data == if k <= i then extents[k] else Lowered(extents[k], extents[i].size)
    {
      hide Distinct;
      if m.next != null {
        hide Slid;
        var src := m.next.data.ptr;
        assert src == extents[i + 1].ptr;
        MoveDown(memory, m.data.ptr, src, memory.Length - avail - src);
        Slide(m, i);
      } else {
        assert i + 1 == |extents|;
      }
    }

    /** Lowers the pointers of all blocks after `m` by the size of `m`. */
    method Slide(m: Node<Extent>, ghost i: nat)
      requires list.Valid() && i < |list.items| == |extents| && m == list.items[i]
      requires forall k :: 0 <= k < |extents| ==> list.items[k].data == extents[k]
      requires forall k :: i < k < |extents| ==> extents[i].size <= extents[k].ptr
      modifies list.items`data
      ensures list.Valid()
      ensures forall k :: 0 <= k < |extents| ==>
                list.items[k].data == if k <= i then extents[k] else Lowered(extents[k], extents[i].size)
    {
      var n := m.next;
      ghost var j := i + 1;
      while n != null
        invariant i < j <= |list.items| && n == At(list.items, j)
        invariant forall k :: 0 <= k < |extents| ==>
                    list.items[k].data == if i < k < j then Lowered(extents[k], extents[i].size) else extents[k]
        decreases |list.items| - j
      {
        n.data := Extent(n.data.size, n.data.ptr - m.data.size);
        n := n.next;
        j := j + 1;
      }
    }
  }

  lemma {:induction false} LaterPointers(mem: seq<byte>, used: nat, extents: seq<Extent>,
                                        contents: seq<seq<byte>>, i: nat)
    requires Tiled(mem, used, extents, contents) && i < |contents|
    ensures forall k :: i < k < |contents| ==> extents[i].ptr + extents[i].size <= extents[k].ptr
    ensures if i + 1 < |contents| then extents[i + 1].ptr == extents[i].ptr + extents[i].size
            else used == extents[i].ptr + extents[i].size
  {
    forall k | i < k < |contents|
      ensures extents[i].ptr + extents[i].size <= extents[k].ptr
    {
      TiledApart(mem, used, extents, contents, i, k);
    }
    FlatAround(contents, i);
    assert i + 1 == |contents| ==> contents[..i + 1] == contents;
  }
}
