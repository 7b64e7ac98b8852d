/** lisp_initialize and lispExpressionInitialize: the globals and the environment of primitives. */
module Startup {
  import opened Bytes
  import opened Trees
  import opened Semantics
  import opened ExpressionPool
  import opened PoolInvariant
  import opened Interface

  function Primitives(): Environment {
    [ Binding(Ascii("quote"), Prim(PQuote)), Binding(Ascii("car"), Prim(PCar)), Binding(Ascii("cdr"), Prim(PCdr)),
      Binding(Ascii("cons"), Prim(PCons)), Binding(Ascii("equal"), Prim(PEqual)), Binding(Ascii("atom"), Prim(PAtom)),
      Binding(Ascii("cond"), Prim(PCond)), Binding(Ascii("lambda"), Prim(PLambda)),
      Binding(Ascii("label"), Prim(PLabel)) ]
  }

  /** The world a server starts in: 49 cells and 43 heap bytes, all below the bookmark. */
  function InitialWorld(): World {
    World(Primitives(), 49, 43, 49, 43, NoError)
  }

  /** While the environment is being built: the bookmark is not yet set. */
  ghost predicate Starting(p: Lisp, spine: seq<Ref>, env: Environment, cells: nat, bytes: nat)
    reads p, p.Repr
  {
    && p.Valid() && p.error == NoError && p.g.mark == 0
    && BaseCells(p.g.cells)
    && (forall i :: i in p.g.locked <==> i in spine)
    && (forall i :: i in spine ==> 4 <= i < |p.g.cells|)
    && (forall i :: 0 <= i < |p.g.cells| && p.g.cells[i].ATOM? ==> |p.g.cells[i].name| <= ATOM_SIZE_LIMIT)
    && Chain(p.g.cells, p.g.locked, spine, BindingTrees(env))
    && |p.g.cells| == cells && NameBytes(p.g.cells) == bytes
  }

  function PrimitiveCells(k: nat, name: seq<byte>, h: Primitive): seq<Cell> {
    [ATOM(name), PRIMITIVE(h), LIST(k + 1, NULL), LIST(k, k + 2)]
  }

  lemma PrimitiveItem(cells: seq<Cell>, locked: set<int>, spine: seq<Ref>, items: seq<Tree>, name: seq<byte>,
                      h: Primitive)
    requires |cells| > 0 && (forall i :: i in locked ==> i < |cells|)
    ensures var more := cells + PrimitiveCells(|cells|, name, h);
            && Denotes(more, locked, |more| - 1, BindingTree(Binding(name, Prim(h))))
            && (Chain(cells, locked, spine, items) ==> Chain(more, locked, spine, items))
  {
    var k, more := |cells|, cells + PrimitiveCells(|cells|, name, h);
    assert more[k] == ATOM(name) && more[k + 1] == PRIMITIVE(h);
    assert more[k + 2] == LIST(k + 1, NULL) && more[k + 3] == LIST(k, k + 2);
    assert Denotes(more, locked, k + 2, List(Prim(h), Null));
    if Chain(cells, locked, spine, items) {
      ChainKept(cells, locked, more, locked, spine, items);
    }
  }

  /** lispCreatePrimitive: a name, a primitive, and the list (name primitive); NULL when one does not fit. */
  method CreatePrimitive(p: Lisp, name: seq<byte>, h: Primitive) returns (r: Ref)
    requires p.Valid()
    modifies p.Repr
    ensures p.Valid() && p.environment == old(p.environment)
    ensures r != NULL <==> old(|p.g.cells|) + 4 <= EXPRESSION_LIMIT && old(NameBytes(p.g.cells)) + |name| <= HEAP_SIZE
    ensures r == NULL ==> p.error == LimitExpressions || p.error == LimitMemory
    ensures r != NULL ==>
              && r == old(|p.g.cells|) + 3 && p.error == old(p.error)
              && p.g == old(p.g).(cells := old(p.g).cells + PrimitiveCells(old(|p.g.cells|), name, h))
              && NameBytes(p.g.cells) == old(NameBytes(p.g.cells)) + |name|
  {
    hide Lisp.Valid, NameBytes;
    r := NULL;
    var primitiveName := p.CreateAtom(name);
    if primitiveName != NULL {
      var expression := p.Create(PrimitiveSlot(h), PRIMITIVE(h), 2);
      if expression != NULL {
        var primitiveList := p.CreateList(expression, NULL);
        if primitiveList != NULL {
          r := p.CreateList(primitiveName, primitiveList);
        }
      }
    }
  }

  /** lispAppend(environment, lispCreatePrimitive(name, handler)). */
  method AddPrimitive(p: Lisp, environment: Ref, name: seq<byte>, h: Primitive,
                      ghost spine: seq<Ref>, ghost env: Environment, ghost cells: nat, ghost bytes: nat)
      returns (ghost spine': seq<Ref>)
    requires Starting(p, spine, env, cells, bytes) && spine[0] == environment
    requires cells + 5 <= EXPRESSION_LIMIT && bytes + |name| <= HEAP_SIZE && |name| <= ATOM_SIZE_LIMIT
    modifies p.Repr
    ensures Starting(p, spine', env + [Binding(name, Prim(h))], cells + 5, bytes + |name|) && spine'[0] == environment
  {
    hide Lisp.Valid, Chain, NameBytes, Ascii, Denotes;
    ghost var p0 := p.g;
    PrimitiveItem(p0.cells, p0.locked, spine, BindingTrees(env), name, h);
    var item := CreatePrimitive(p, name, h);
    ghost var p1 := p.g;
    ChainSpine(p1.cells, p1.locked, spine, BindingTrees(env));
    p.Append(environment, item, spine);
    Relock(p, p.g.locked + {|p1.cells|});
    spine' := spine + [|p1.cells|];
    ChainAppended(p1.cells, p1.locked, spine, BindingTrees(env), item, BindingTree(Binding(name, Prim(h))));
    assert BindingTrees(env + [Binding(name, Prim(h))]) == BindingTrees(env) + [BindingTree(Binding(name, Prim(h)))];
  }

  lemma ChainSpine(cells: seq<Cell>, locked: set<int>, spine: seq<Ref>, items: seq<Tree>)
    requires Chain(cells, locked, spine, items)
    ensures Spine(cells, spine) && Last(spine) in spine && spine[0] in spine
  {
  }

  const GLOBAL_CELLS: seq<Cell> := [LIST(NULL, NULL), ATOM(Ascii("(")), ATOM(Ascii(")")), ATOM(Ascii("#t"))]

  /** nil, the two parentheses and truth. */
  method Globals(p: Lisp)
    requires p.Valid() && p.g == Pool([], {}, [], [], 0) && p.error == NoError
    modifies p.Repr
    ensures p.Valid() && p.g == Pool(GLOBAL_CELLS, {}, [], [], 0) && p.error == NoError
    ensures NameBytes(p.g.cells) == 4
  {
    hide Lisp.Valid;
    var nil := p.CreateList(NULL, NULL);
    var open := p.CreateAtom(Ascii("("));
    var close := p.CreateAtom(Ascii(")"));
    var truth := p.CreateAtom(Ascii("#t"));
    assert nil == NIL && open == PARENTHESIS_OPEN && close == PARENTHESIS_CLOSE && truth == TRUTH;
  }

  /** A list of the item of one binding is an environment. */
  lemma FirstChain(cells: seq<Cell>, cells': seq<Cell>, item: Ref, b: Binding)
    requires |cells| > 0 && Denotes(cells, {}, item, BindingTree(b)) && cells' == cells + [LIST(item, NULL)]
    ensures Chain(cells', {|cells|}, [|cells|], BindingTrees([b]))
  {
    DenotesKept(cells, {}, cells', {|cells|}, item, BindingTree(b));
    hide Denotes;
    assert BindingTrees([b]) == [BindingTree(b)];
  }

  /** The environment of the first primitive. */
  method FirstPrimitive(p: Lisp) returns (environment: Ref, ghost spine: seq<Ref>)
    requires p.Valid() && p.g == Pool(GLOBAL_CELLS, {}, [], [], 0) && p.error == NoError && NameBytes(p.g.cells) == 4
    modifies p.Repr
    ensures Starting(p, spine, [Binding(Ascii("quote"), Prim(PQuote))], 9, 9) && spine[0] == environment
  {
    hide Lisp.Valid, NameBytes, Denotes, Chain, BindingTrees;
    var name := Ascii("quote");
    ghost var b := Binding(name, Prim(PQuote));
    PrimitiveItem(p.g.cells, {}, [], [], name, PQuote);
    var item := CreatePrimitive(p, name, PQuote);
    ghost var more := p.g.cells;
    environment := p.CreateList(item, NULL);
    Relock(p, {environment});
    spine := [environment];
    FirstChain(more, p.g.cells, item, b);
  }

  /** lispExpressionInitialize, called by lisp_initialize after mmem_init. */
  method Initialize() returns (p: Lisp)
    ensures fresh(p) && fresh(p.Repr) && AtRest(p) && p.error == NoError
    ensures p.State() == InitialWorld()
  {
    hide Starting, Lisp.Valid;
    p := new Lisp();
    Globals(p);
    var environment;
    ghost var spine;
    environment, spine := FirstPrimitive(p);
    ghost var env := [Binding(Ascii("quote"), Prim(PQuote))];
    spine := AddPrimitive(p, environment, Ascii("car"), PCar, spine, env, 9, 9);
    env := env + [Binding(Ascii("car"), Prim(PCar))];
    spine := AddPrimitive(p, environment, Ascii("cdr"), PCdr, spine, env, 14, 12);
    env := env + [Binding(Ascii("cdr"), Prim(PCdr))];
    spine := AddPrimitive(p, environment, Ascii("cons"), PCons, spine, env, 19, 15);
    env := env + [Binding(Ascii("cons"), Prim(PCons))];
    spine := AddPrimitive(p, environment, Ascii("equal"), PEqual, spine, env, 24, 19);
    env := env + [Binding(Ascii("equal"), Prim(PEqual))];
    spine := AddPrimitive(p, environment, Ascii("atom"), PAtom, spine, env, 29, 24);
    env := env + [Binding(Ascii("atom"), Prim(PAtom))];
    spine := AddPrimitive(p, environment, Ascii("cond"), PCond, spine, env, 34, 28);
    env := env + [Binding(Ascii("cond"), Prim(PCond))];
    spine := AddPrimitive(p, environment, Ascii("lambda"), PLambda, spine, env, 39, 32);
    env := env + [Binding(Ascii("lambda"), Prim(PLambda))];
    spine := AddPrimitive(p, environment, Ascii("label"), PLabel, spine, env, 44, 38);
    env := env + [Binding(Ascii("label"), Prim(PLabel))];
    assert env == Primitives();
    Publish(p, environment, spine, env, 49, 43);
  }

  /** The bookmark goes above the finished environment, and lispEnvironment points to it. */
  method Publish(p: Lisp, environment: Ref, ghost spine: seq<Ref>, ghost env: Environment, ghost cells: nat,
                 ghost bytes: nat)
    requires Starting(p, spine, env, cells, bytes) && spine[0] == environment
    modifies p.Repr
    ensures AtRest(p) && p.error == NoError && p.State() == World(env, cells, bytes, cells, bytes, NoError)
  {
    ghost var g := Pool(p.g.cells, p.g.locked, spine, env, |p.g.cells|);
    p.MoveBookmark(g);
    p.SetEnvironment(environment);
    assert g.cells[..g.mark] == g.cells;
  }
}
