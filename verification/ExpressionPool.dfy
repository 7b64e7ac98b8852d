/**
 * The expression pool of src/common/lisp/expression.c: bump allocation from a fixed array, atom
 * names in the compacting heap, and the reset to the bookmark.
 */
module ExpressionPool {
  import opened Bytes
  import opened LinkedLists
  import opened ManagedMemory
  import opened Trees
  import opened Semantics

  /** What a pool slot stores itself; the name of an atom is behind the block embedded in the slot. */
  datatype Slot =
    | AtomSlot
    | LambdaSlot(arguments: Ref, expression: Ref)
    | ListSlot(car: Ref, cdr: Ref)
    | PrimitiveSlot(handler: Primitive)

  /** The pool as values: the live cells, which of them are locked, the environment, the bookmark. */
  datatype Pool = Pool(cells: seq<Cell>, locked: set<int>, spine: seq<Ref>, env: Environment, mark: nat)

  ghost predicate Shows(slot: Slot, cell: Cell) {
    match cell
    case ATOM(_) => slot == AtomSlot
    case LAMBDA(a, e) => slot == LambdaSlot(a, e)
    case LIST(a, d) => slot == ListSlot(a, d)
    case PRIMITIVE(h) => slot == PrimitiveSlot(h)
  }

  /** The names of the atoms, in slot order. */
  ghost function Names(cells: seq<Cell>): seq<seq<byte>> {
    if cells == [] then []
    else
      var c := cells[|cells| - 1];
      Names(cells[..|cells| - 1]) + if c.ATOM? then [c.name] else []
  }

  /** The heap blocks embedded in the atom slots, in slot order. */
  ghost function AtomNodes(nodes: seq<Node<Extent>>, cells: seq<Cell>): seq<Node<Extent>>
    requires |cells| <= |nodes|
  {
    if cells == [] then []
    else
      var k := |cells| - 1;
      AtomNodes(nodes, cells[..k]) + if cells[k].ATOM? then [nodes[k]] else []
  }

  ghost function NameBytes(cells: seq<Cell>): nat {
    |Flat(Names(cells))|
  }

  lemma PushCell(nodes: seq<Node<Extent>>, cells: seq<Cell>, c: Cell)
    requires |cells| < |nodes|
    ensures Names(cells + [c]) == Names(cells) + (if c.ATOM? then [c.name] else [])
    ensures AtomNodes(nodes, cells + [c]) == AtomNodes(nodes, cells) + (if c.ATOM? then [nodes[|cells|]] else [])
    ensures NameBytes(cells + [c]) == NameBytes(cells) + (if c.ATOM? then |c.name| else 0)
  {
    assert (cells + [c])[..|cells|] == cells;
    FlatAppend(Names(cells), if c.ATOM? then [c.name] else []);
    assert c.ATOM? ==> Flat([c.name]) == c.name + Flat([c.name][1..]);
  }

  lemma {:induction false} RewriteListCell(nodes: seq<Node<Extent>>, cells: seq<Cell>, i: nat, c: Cell)
    requires |cells| <= |nodes| && i < |cells| && cells[i].LIST? && c.LIST?
    ensures Names(cells[i := c]) == Names(cells)
    ensures AtomNodes(nodes, cells[i := c]) == AtomNodes(nodes, cells)
  {
    var k := |cells| - 1;
    if i < k {
      assert cells[i := c][..k] == cells[..k][i := c];
      RewriteListCell(nodes, cells[..k], i, c);
    } else {
      assert cells[i := c][..k] == cells[..k];
    }
  }

  lemma {:induction false} AtomNodesRange(nodes: seq<Node<Extent>>, cells: seq<Cell>)
    requires |cells| <= |nodes|
    ensures |AtomNodes(nodes, cells)| == |Names(cells)|
    ensures forall n :: n in AtomNodes(nodes, cells) ==> exists k :: 0 <= k < |cells| && cells[k].ATOM? && n == nodes[k]
  {
    if cells != [] {
      AtomNodesRange(nodes, cells[..|cells| - 1]);
    }
  }

  /** A slot that holds no atom has its block outside the heap list, whatever its bytes say. */
  lemma NotInHeap(nodes: seq<Node<Extent>>, cells: seq<Cell>, k: nat)
    requires |cells| <= |nodes| && k < |nodes| && Distinct(nodes)
    requires k < |cells| ==> !cells[k].ATOM?
    ensures nodes[k] !in AtomNodes(nodes, cells)
  {
    AtomNodesRange(nodes, cells);
  }

  /** Atom slot `k` is block number `j` of the heap. */
  lemma {:induction false} AtomIndex(nodes: seq<Node<Extent>>, cells: seq<Cell>, k: nat) returns (j: nat)
    requires k < |cells| <= |nodes| && cells[k].ATOM?
    ensures j < |Names(cells)| == |AtomNodes(nodes, cells)|
    ensures Names(cells)[j] == cells[k].name && AtomNodes(nodes, cells)[j] == nodes[k]
  {
    AtomNodesRange(nodes, cells);
    var m := |cells| - 1;
    AtomNodesRange(nodes, cells[..m]);
    if k == m {
      j := |Names(cells[..m])|;
    } else {
      j := AtomIndex(nodes, cells[..m], k);
    }
  }

  method MakeNodes(n: nat) returns (nodes: seq<Node<Extent>>)
    ensures |nodes| == n && Distinct(nodes) && fresh(nodes)
  {
    nodes := [];
    while |nodes| < n
      invariant |nodes| <= n && Distinct(nodes) && fresh(nodes)
    {
      var node := new Node(Extent(0, 0));
      nodes := nodes + [node];
    }
  }

  class Lisp {
    const slots: array<Slot>
    const nodes: seq<Node<Extent>>
    const mmem: Mmem
    var current: nat
    var bookmark: nat
    var error: Error
    var environment: Ref
    ghost var g: Pool
    ghost const Repr: set<object>

    /** Slots below |g.cells| show g.cells, and the heap holds exactly their atoms' names, in order. */
    ghost predicate Aligned()
      reads this, Repr
    {
      && this in Repr && slots in Repr && mmem in Repr && mmem.memory in Repr && mmem.list in Repr
      && (forall n :: n in nodes ==> n in Repr)
      && slots as object != mmem.memory
      && |nodes| == slots.Length == EXPRESSION_LIMIT && mmem.memory.Length == HEAP_SIZE
      && Distinct(nodes)
      && |g.cells| <= |nodes|
      && mmem.list.items == AtomNodes(nodes, g.cells)
      && (forall n :: n in mmem.list.items ==> n in Repr)
      && mmem.Valid()
      && mmem.contents == Names(g.cells)
      && forall k :: 0 <= k < |g.cells| ==> Shows(slots[k], g.cells[k])
    }

    ghost predicate Valid()
      reads this, Repr
    {
      && Aligned()
      && current == |g.cells|
      && bookmark == g.mark
    }

    /** What an evaluation goes by. */
    ghost function State(): World
      reads this
    {
      World(g.env, |g.cells|, NameBytes(g.cells), g.mark,
            if g.mark <= |g.cells| then NameBytes(g.cells[..g.mark]) else 0, error)
    }

    /** An empty pool over an empty heap (mmem_init). */
    constructor ()
      ensures Valid() && fresh(Repr) && error == NoError
      ensures g == Pool([], {}, [], [], 0)
    {
      var blocks := MakeNodes(EXPRESSION_LIMIT);
      var heap := new Mmem(HEAP_SIZE);
      var pool := new Slot[EXPRESSION_LIMIT](_ => AtomSlot);
      nodes, mmem, slots := blocks, heap, pool;
      current, bookmark, error, environment := 0, 0, NoError, NULL;
      g := Pool([], {}, [], [], 0);
      Repr := {this, pool, heap, heap.memory, heap.list} + set n | n in blocks;
    }

    lemma AvailableMemory()
      requires Aligned()
      ensures mmem.avail == HEAP_SIZE - NameBytes(g.cells)
    {
    }

    /**
     * The heap is a function of the live cells: block `j` belongs to the atom slot number `j`, and its
     * place, its bytes and what is available follow from the names before it.  So a reset, which cuts
     * the cells back to those at the bookmark, brings the heap back to what it was there.
     */
    lemma HeapFollowsCells()
      requires Aligned()
      ensures mmem.list.items == AtomNodes(nodes, g.cells) && mmem.contents == Names(g.cells)
      ensures mmem.extents == Layout(Names(g.cells)) && mmem.avail == HEAP_SIZE - NameBytes(g.cells)
      ensures mmem.memory[..NameBytes(g.cells)] == Flat(Names(g.cells))
    {
      AvailableMemory();
      assert forall i :: 0 <= i < |mmem.extents| ==> mmem.extents[i] == Layout(mmem.contents)[i];
    }

    /** atom.name of an atom slot: the bytes its block's pointer and size select. */
    method Name(r: Ref) returns (name: seq<byte>)
      requires Valid() && 0 <= r < |g.cells| && g.cells[r].ATOM?
      ensures name == g.cells[r].name
    {
      var e := nodes[r].data;
      ghost var j := AtomIndex(nodes, g.cells, r);
      TiledBytes(mmem.memory[..], HEAP_SIZE - mmem.avail, mmem.extents, mmem.contents, j);
      name := mmem.memory[..][e.ptr..e.ptr + e.size];
    }

    /** lispAllocateExpression, but for the write of the slot. */
    method AllocateExpression(extra: nat) returns (r: Ref)
      requires Valid()
      modifies this`current, this`error
      ensures Aligned()
      ensures if old(current) + extra >= EXPRESSION_LIMIT
              then r == NULL && current == old(current) && error == LimitExpressions
              else r == old(current) && current == old(current) + 1 && error == old(error)
    {
      if current + extra >= EXPRESSION_LIMIT {
        error := LimitExpressions;
        return NULL;
      }
      r := current;
      current := current + 1;
    }

    /**
     * Stores a cell that is no atom.  The block embedded in the slot shares its bytes with the cell,
     * so whatever it held is lost; the heap survives because the block is not on its list.
     */
    method Overwrite(r: Ref, slot: Slot)
      requires Aligned() && 0 <= r < |nodes| && nodes[r] !in mmem.list.items
      modifies slots, nodes[r]
      ensures mmem.Valid()
      ensures slots[r] == slot && forall k :: 0 <= k < slots.Length && k != r ==> slots[k] == old(slots[k])
    {
      slots[r] := slot;
      nodes[r].next, nodes[r].data := *, *;
    }

    /** Fills the slot after the last live cell. */
    method AddCell(r: Ref, slot: Slot, ghost c: Cell)
      requires Aligned() && r == |g.cells| < |nodes| && Shows(slot, c) && !c.ATOM?
      modifies Repr
      ensures Aligned() && current == old(current) && bookmark == old(bookmark)
      ensures error == old(error) && environment == old(environment)
      ensures g == old(g).(cells := old(g).cells + [c])
      ensures NameBytes(g.cells) == NameBytes(old(g).cells)
    {
      hide Mmem.Valid;
      NotInHeap(nodes, g.cells, r);
      Overwrite(r, slot);
      PushCell(nodes, g.cells, c);
      g := g.(cells := g.cells + [c]);
    }

    /** Rewrites a live list cell. */
    method SetCell(r: Ref, slot: Slot, ghost c: Cell)
      requires Valid() && 0 <= r < |g.cells| && g.cells[r].LIST? && Shows(slot, c) && c.LIST?
      modifies Repr
      ensures Valid() && error == old(error) && environment == old(environment)
      ensures g == old(g).(cells := old(g).cells[r := c])
      ensures NameBytes(g.cells) == NameBytes(old(g).cells)
    {
      hide Mmem.Valid;
      NotInHeap(nodes, g.cells, r);
      Overwrite(r, slot);
      RewriteListCell(nodes, g.cells, r, c);
      g := g.(cells := g.cells[r := c]);
    }

    /** lispCreateAtom: all or nothing, the slot being given back when the heap is full. */
    method CreateAtom(name: seq<byte>) returns (r: Ref)
      requires Valid()
      modifies Repr
      ensures Valid() && environment == old(environment)
      ensures if |old(g).cells| >= EXPRESSION_LIMIT then r == NULL && error == LimitExpressions && g == old(g)
              else if NameBytes(old(g).cells) + |name| > HEAP_SIZE then r == NULL && error == LimitMemory && g == old(g)
              else r == |old(g).cells| && error == old(error) && g == old(g).(cells := old(g).cells + [ATOM(name)])
      ensures NameBytes(g.cells) == NameBytes(old(g).cells) + if r == NULL then 0 else |name|
    {
      hide Mmem.Valid;
      r := AllocateExpression(0);
      if r != NULL {
        slots[r] := AtomSlot;
        var ok := CopyName(r, name);
        if !ok {
          current := current - 1;
          r := NULL;
          error := LimitMemory;
        }
      }
    }

    method CopyName(r: Ref, name: seq<byte>) returns (ok: bool)
      requires Aligned() && 0 <= r == |g.cells| < |nodes| && slots[r].AtomSlot?
      modifies Repr
      ensures Aligned() && environment == old(environment) && error == old(error)
      ensures current == old(current) && bookmark == old(bookmark)
      ensures ok <==> NameBytes(old(g).cells) + |name| <= HEAP_SIZE
      ensures g == if ok then old(g).(cells := old(g).cells + [ATOM(name)]) else old(g)
      ensures NameBytes(g.cells) == NameBytes(old(g).cells) + if ok then |name| else 0
    {
      hide Mmem.Valid;
      AvailableMemory();
      NotInHeap(nodes, g.cells, r);
      ok := mmem.AllocCopy(nodes[r], name);
      if ok {
        PushCell(nodes, g.cells, ATOM(name));
        g := g.(cells := g.cells + [ATOM(name)]);
      }
    }

    /** The pool after one more cell that is no atom, or the error when there is no room for it. */
    twostate predicate Created(r: Ref, c: Cell, extra: nat)
      reads this
    {
      && environment == old(environment)
      && (if |old(g).cells| + extra >= EXPRESSION_LIMIT then r == NULL && error == LimitExpressions && g == old(g)
          else r == |old(g).cells| && error == old(error) && g == old(g).(cells := old(g).cells + [c]))
      && NameBytes(g.cells) == NameBytes(old(g).cells)
    }

    method Create(slot: Slot, ghost c: Cell, extra: nat) returns (r: Ref)
      requires Valid() && Shows(slot, c) && !c.ATOM?
      modifies Repr
      ensures Valid() && Created(r, c, extra)
    {
      r := AllocateExpression(extra);
      if r != NULL {
        AddCell(r, slot, c);
      }
    }

    /** lispCreateLambda. */
    method CreateLambda(arguments: Ref, expression: Ref) returns (r: Ref)
      requires Valid()
      modifies Repr
      ensures Valid() && Created(r, LAMBDA(arguments, expression), 0)
    {
      r := Create(LambdaSlot(arguments, expression), LAMBDA(arguments, expression), 0);
    }

    /** lispCreateList. */
    method CreateList(car: Ref, cdr: Ref) returns (r: Ref)
      requires Valid()
      modifies Repr
      ensures Valid() && Created(r, LIST(car, cdr), 0)
    {
      r := Create(ListSlot(car, cdr), LIST(car, cdr), 0);
    }

    /** lispAppend: walks to the last cell of `expression` and hangs a new cell holding `appendee` on it. */
    method Append(expression: Ref, appendee: Ref, ghost spine: seq<Ref>)
      requires Valid() && Spine(g.cells, spine) && expression == spine[0]
      modifies Repr
      ensures Valid() && environment == old(environment)
      ensures if |old(g).cells| >= EXPRESSION_LIMIT then error == LimitExpressions && g == old(g)
              else error == old(error) && g == old(g).(cells := Appended(old(g).cells, spine, appendee))
      ensures NameBytes(g.cells) == NameBytes(old(g).cells)
    {
      hide Mmem.Valid;
      var e := expression;
      ghost var i := 0;
      while slots[e].cdr != NULL
        invariant i < |spine| && e == spine[i] && Shows(slots[e], g.cells[spine[i]])
        decreases |spine| - i
      {
        assert slots[e].cdr == Successor(spine, i);
        e := slots[e].cdr;
        i := i + 1;
      }
      assert g.cells[spine[i]].cdr == Successor(spine, i);
      var cell := CreateList(appendee, NULL);
      var car := slots[e].car;
      SetCell(e, ListSlot(car, cell), LIST(car, cell));
      assert cell == NULL ==> g.cells == old(g.cells);
    }

    /** lispExpressionBookmark = lispExpressionCurrent, with the new bookkeeping `g'`. */
    method MoveBookmark(ghost g': Pool)
      requires Valid() && g'.cells == g.cells && g'.mark == |g.cells|
      modifies this`bookmark, this`g
      ensures Valid() && g == g'
    {
      bookmark := current;
      g := g';
    }

    /** lispEnvironment = environment. */
    method SetEnvironment(environment: Ref)
      requires Valid()
      modifies this`environment
      ensures Valid() && this.environment == environment
    {
      this.environment := environment;
    }

    /** lispReset: gives back every cell above the bookmark, freeing the names of atoms. */
    method Reset()
      requires Valid() && g.mark <= |g.cells|
      modifies Repr
      ensures Valid() && environment == old(environment) && error == old(error)
      ensures g == old(g.(cells := g.cells[..g.mark]))
    {
      while current > bookmark
        invariant Valid() && environment == old(environment) && error == old(error)
        invariant g.mark == old(g.mark) <= |g.cells| <= |old(g).cells|
        invariant g == old(g).(cells := old(g).cells[..|g.cells|])
      {
        PopSlot();
      }
    }

    /** One turn of the loop of lispReset: only ever the last block of the heap is freed. */
    method PopSlot()
      requires Valid() && |g.cells| > 0
      modifies Repr
      ensures Valid()
      ensures environment == old(environment) && error == old(error)
      ensures g == old(g).(cells := old(g).cells[..|old(g).cells| - 1])
    {
      hide Mmem.Valid;
      current := current - 1;
      FreeTop();
      g := g.(cells := g.cells[..current]);
    }

    /** Frees the name of the topmost cell, if it is an atom. */
    method FreeTop()
      requires Aligned() && current == |g.cells| - 1
      modifies mmem, mmem.memory, mmem.list, mmem.list.items
      ensures mmem.Valid()
      ensures var rest := g.cells[..current];
              mmem.contents == Names(rest) && mmem.list.items == AtomNodes(nodes, rest)
    {
      hide Mmem.Valid;
      if slots[current].AtomSlot? {
        mmem.FreeLast(nodes[current]);
      }
    }
  }
}
