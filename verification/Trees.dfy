/**
 * What the cells of the expression pool mean.
 *
 * A cell of `lispExpressions` is addressed by its index; a pointer is a `Ref`.  `Tree` is the value
 * a pointer denotes.  Three values the source keeps apart by pointer comparison stay apart here:
 * NULL, the one `nil` cell, and every other empty list cell.
 */
module Trees {
  import opened Bytes

  type Ref = r: int | -1 <= r witness -1

  const NULL: Ref := -1
  const NIL: Ref := 0
  const PARENTHESIS_OPEN: Ref := 1
  const PARENTHESIS_CLOSE: Ref := 2
  const TRUTH: Ref := 3

  const ATOM_SIZE_LIMIT: nat := 64
  const EXPRESSION_LIMIT: nat := 160

  /** lispError together with lispErrorMessage: one value for each message the source can set. */
  datatype Error =
    | NoError
    | EndOfInput
    | LimitEmit
    | LimitExpressions
    | LimitMemory
    | LimitToken
    | TokenTruncated
    | NotAToken

  datatype Primitive = PAtom | PCar | PCdr | PCond | PCons | PEqual | PLambda | PLabel | PQuote

  datatype Cell =
    | ATOM(name: seq<byte>)
    | LAMBDA(arguments: Ref, expression: Ref)
    | LIST(car: Ref, cdr: Ref)
    | PRIMITIVE(handler: Primitive)

  datatype Tree =
    | Null
    | Nil
    | Atom(name: seq<byte>)
    | List(car: Tree, cdr: Tree)
    | Lambda(arguments: Tree, expression: Tree)
    | Prim(handler: Primitive)

  const TRUTH_TREE := Atom(Ascii("#t"))

  /** lispIsList: the nil cell is a LIST cell too. */
  predicate IsList(t: Tree) {
    t.List? || t.Nil?
  }

  /** list.car and list.cdr of a LIST cell; both fields of the nil cell are NULL. */
  function Car(t: Tree): Tree
    requires IsList(t)
  {
    if t.Nil? then Null else t.car
  }

  function Cdr(t: Tree): Tree
    requires IsList(t)
  {
    if t.Nil? then Null else t.cdr
  }

  /** A measure for recursion: that of the car of the nil cell is smaller, too. */
  ghost function Weight(t: Tree): nat {
    match t
    case Null => 0
    case List(a, d) => 1 + Weight(a) + Weight(d)
    case Lambda(a, e) => 3 + Weight(a) + Weight(e)
    case _ => 1
  }

  /** The NULL-terminated list of `ts`. */
  function FromSeq(ts: seq<Tree>): Tree {
    if ts == [] then Null else List(ts[0], FromSeq(ts[1..]))
  }

  /** The cars met by a `while (lispIsList(...))` walk from `t`. */
  function Elems(t: Tree): seq<Tree> {
    match t
    case List(a, d) => [a] + Elems(d)
    case Nil => [Null]
    case _ => []
  }

  lemma {:induction false} ElemsFromSeq(ts: seq<Tree>)
    ensures Elems(FromSeq(ts)) == ts
  {
    if ts != [] {
      ElemsFromSeq(ts[1..]);
    }
  }

  /**
   * Pointer `r` denotes tree `t` without passing through a locked cell.  Locked cells are the ones
   * later appends may still overwrite: the spine of the environment and lists under construction.
   */
  ghost predicate Denotes(cells: seq<Cell>, locked: set<int>, r: Ref, t: Tree)
    decreases t
  {
    match t
    case Null => r == NULL
    case Nil => r == NIL && NIL !in locked && |cells| > 0 && cells[NIL] == LIST(NULL, NULL)
    case Atom(name) => InPool(cells, locked, r) && cells[r] == ATOM(name)
    case List(a, d) =>
      && InPool(cells, locked, r) && cells[r].LIST?
      && Denotes(cells, locked, cells[r].car, a) && Denotes(cells, locked, cells[r].cdr, d)
    case Lambda(a, e) =>
      && InPool(cells, locked, r) && cells[r].LAMBDA?
      && Denotes(cells, locked, cells[r].arguments, a) && Denotes(cells, locked, cells[r].expression, e)
    case Prim(h) => InPool(cells, locked, r) && cells[r] == PRIMITIVE(h)
  }

  ghost predicate InPool(cells: seq<Cell>, locked: set<int>, r: Ref) {
    NIL < r < |cells| && r !in locked
  }

  /** A pointer denotes at most one tree. */
  lemma {:induction false} DenotesUnique(cells: seq<Cell>, locked: set<int>, r: Ref, t: Tree, u: Tree)
    requires Denotes(cells, locked, r, t) && Denotes(cells, locked, r, u)
    ensures t == u
    decreases t
  {
    match t {
      case List(a, d) =>
        DenotesUnique(cells, locked, cells[r].car, a, u.car);
        DenotesUnique(cells, locked, cells[r].cdr, d, u.cdr);
      case Lambda(a, e) =>
        DenotesUnique(cells, locked, cells[r].arguments, a, u.arguments);
        DenotesUnique(cells, locked, cells[r].expression, e, u.expression);
      case _ =>
    }
  }

  /** Every unlocked cell is still there, unchanged and unlocked. */
  ghost predicate Kept(cells: seq<Cell>, locked: set<int>, cells': seq<Cell>, locked': set<int>) {
    && |cells| <= |cells'|
    && forall i :: 0 <= i < |cells| && i !in locked ==> cells'[i] == cells[i] && i !in locked'
  }

  lemma {:induction false} DenotesKept(cells: seq<Cell>, locked: set<int>, cells': seq<Cell>,
                                       locked': set<int>, r: Ref, t: Tree)
    requires Kept(cells, locked, cells', locked')
    ensures Denotes(cells, locked, r, t) ==> Denotes(cells', locked', r, t)
    decreases t
  {
    if Denotes(cells, locked, r, t) {
      match t {
        case List(a, d) =>
          DenotesKept(cells, locked, cells', locked', cells[r].car, a);
          DenotesKept(cells, locked, cells', locked', cells[r].cdr, d);
        case Lambda(a, e) =>
          DenotesKept(cells, locked, cells', locked', cells[r].arguments, a);
          DenotesKept(cells, locked, cells', locked', cells[r].expression, e);
        case _ =>
      }
    }
  }

  ghost function Successor(spine: seq<Ref>, i: nat): Ref {
    if i + 1 < |spine| then spine[i + 1] else NULL
  }

  /** `spine` is a NULL-terminated run of LIST cells, in the order they were allocated. */
  ghost predicate Spine(cells: seq<Cell>, spine: seq<Ref>) {
    && spine != []
    && (forall i, j :: 0 <= i < j < |spine| ==> spine[i] < spine[j])
    && (forall i :: 0 <= i < |spine| ==> NIL < spine[i] < |cells|)
    && forall i {:trigger cells[spine[i]]} :: 0 <= i < |spine| ==>
         cells[spine[i]].LIST? && cells[spine[i]].cdr == Successor(spine, i)
  }

  /** A locked spine whose cars denote `items`. */
  ghost predicate Chain(cells: seq<Cell>, locked: set<int>, spine: seq<Ref>, items: seq<Tree>) {
    && Spine(cells, spine)
    && |items| == |spine|
    && forall i {:trigger cells[spine[i]]} {:trigger items[i]} :: 0 <= i < |spine| ==>
         spine[i] in locked && Denotes(cells, locked, cells[spine[i]].car, items[i])
  }

  ghost function Last(spine: seq<Ref>): Ref
    requires spine != []
  {
    spine[|spine| - 1]
  }

  lemma ChainKept(cells: seq<Cell>, locked: set<int>, cells': seq<Cell>, locked': set<int>, spine: seq<Ref>,
                  items: seq<Tree>)
    requires Chain(cells, locked, spine, items) && Kept(cells, locked, cells', locked')
    requires forall i :: 0 <= i < |spine| ==> spine[i] in locked' && cells'[spine[i]] == cells[spine[i]]
    ensures Chain(cells', locked', spine, items)
  {
    forall i | 0 <= i < |spine|
      ensures Denotes(cells', locked', cells[spine[i]].car, items[i])
    {
      DenotesKept(cells, locked, cells', locked', cells[spine[i]].car, items[i]);
    }
  }

  /** The pool after `lispAppend` along `spine`: one new cell, and the old last cell points to it. */
  ghost function Appended(cells: seq<Cell>, spine: seq<Ref>, car: Ref): seq<Cell>
    requires Spine(cells, spine)
  {
    var last := Last(spine);
    cells[last := LIST(cells[last].car, |cells|)] + [LIST(car, NULL)]
  }

  lemma ChainAppended(cells: seq<Cell>, locked: set<int>, spine: seq<Ref>, items: seq<Tree>, car: Ref, t: Tree)
    requires Chain(cells, locked, spine, items) && Denotes(cells, locked, car, t)
    requires forall i :: i in locked ==> i < |cells|
    ensures Chain(Appended(cells, spine, car), locked + {|cells|}, spine + [|cells|], items + [t])
    ensures Kept(cells, locked, Appended(cells, spine, car), locked + {|cells|})
  {
    hide Denotes;
    var cells', locked', spine' := Appended(cells, spine, car), locked + {|cells|}, spine + [|cells|];
    forall i | 0 <= i < |spine'|
      ensures 0 <= spine'[i] < |cells'| && cells'[spine'[i]].LIST?
      ensures Denotes(cells', locked', cells'[spine'[i]].car, (items + [t])[i])
    {
      if i < |spine| {
        assert cells'[spine[i]].car == cells[spine[i]].car;
        DenotesKept(cells, locked, cells', locked', cells[spine[i]].car, items[i]);
      } else {
        DenotesKept(cells, locked, cells', locked', car, t);
      }
    }
  }

  /** A finished list, once unlocked, denotes the list of its items. */
  lemma {:induction false} ChainDenotes(cells: seq<Cell>, locked: set<int>, spine: seq<Ref>, items: seq<Tree>,
                                        free: set<int>, i: nat)
    requires Chain(cells, locked, spine, items) && i < |spine|
    requires free <= locked && forall k :: 0 <= k < |spine| ==> spine[k] !in free
    ensures Denotes(cells, free, spine[i], FromSeq(items[i..]))
    decreases |spine| - i
  {
    var r := spine[i];
    DenotesKept(cells, locked, cells, free, cells[r].car, items[i]);
    assert items[i..][0] == items[i] && items[i..][1..] == items[i + 1..];
    if i + 1 < |spine| {
      ChainDenotes(cells, locked, spine, items, free, i + 1);
    }
  }
}
