/**
 * The evaluator of src/common/lisp/expression.c and primitives.c on the pool: it reads and writes
 * cells in place, and refines the functions of module Semantics.
 *
 * Wherever the source builds a list, it creates the first cell and appends the others, so the list
 * is locked until it is complete; evaluating an element must not, and does not, reach it.
 */
module Evaluator {
  import opened Bytes
  import opened Trees
  import opened Semantics
  import opened ExpressionPool
  import opened PoolInvariant

  /** What an evaluation step promises: outcome `o`, error included, and nothing else changed but by growing. */
  twostate predicate Yields(p: Lisp, r: Ref, o: Outcome)
    reads p, p.Repr
  {
    && Sound(p) && Grown(old(p.g), p.g, [])
    && o.Value? && p.State() == o.world && Means(p, r, o.value)
  }

  predicate HeadIs(building: seq<Ref>, r: Ref) {
    building != [] && building[0] == r
  }

  /** A step may start from here, and doing nothing is a step. */
  lemma Begin(p: Lisp)
    requires Sound(p)
    ensures Good(p.g) && Grown(p.g, p.g, []) && p.g.mark <= |p.g.cells|
    ensures Means(p, NIL, Nil) && Means(p, TRUTH, TRUTH_TREE) && p in p.Repr
  {
    GrownRefl(p.g);
  }

  // ---------------------------------------------------------------- building lists

  lemma {:induction false} MarkBytesAppended(p: Lisp, cells: seq<Cell>, spine: seq<Ref>, car: Ref, mark: nat)
    requires p.Valid() && |cells| < |p.nodes| && Spine(cells, spine) && mark <= |cells|
    ensures NameBytes(Appended(cells, spine, car)[..mark]) == NameBytes(cells[..mark])
  {
    var last := Last(spine);
    var c := LIST(cells[last].car, |cells|);
    if last < mark {
      assert Appended(cells, spine, car)[..mark] == cells[..mark][last := c];
      RewriteListCell(p.nodes, cells[..mark], last, c);
    } else {
      assert Appended(cells, spine, car)[..mark] == cells[..mark];
    }
  }

  /** lispCreateList(car, NULL) for a list that will be appended to. */
  method NewList(p: Lisp, car: Ref, ghost a: Pool, ghost t: Tree) returns (r: Ref)
    requires Sound(p) && Grown(a, p.g, []) && Means(p, car, t)
    modifies p.Repr
    ensures Sound(p) && p.State() == Take(old(p.State()))
    ensures if Free(old(p.State())) then r != NULL && Building(a, p.g, [r], [t]) else r == NULL && p.g == old(p.g)
    ensures Kept(old(p.g.cells), old(p.g.locked), p.g.cells, p.g.locked)
  {
    hide Lisp.Valid, Good, Grown, Building;
    Begin(p);
    ghost var p0 := p.g;
    r := p.CreateList(car, NULL);
    if r != NULL {
      assert p.g.cells[..p0.mark] == p0.cells[..p0.mark];
      Relock(p, p.g.locked + {r});
      StartList(a, p0, p.g, car, t);
    }
  }

  /** lispAppend to a list under construction, which stays as it is if no cell is left. */
  method AppendTo(p: Lisp, list: Ref, car: Ref, ghost a: Pool, ghost building: seq<Ref>,
                  ghost items: seq<Tree>, ghost t: Tree)
      returns (ghost building': seq<Ref>, ghost items': seq<Tree>)
    requires Sound(p) && Building(a, p.g, building, items) && HeadIs(building, list)
    requires Means(p, car, t)
    modifies p.Repr
    ensures Sound(p) && p.State() == Take(old(p.State()))
    ensures Building(a, p.g, building', items') && HeadIs(building', list)
    ensures items' == if Free(old(p.State())) then items + [t] else items
    ensures Kept(old(p.g.cells), old(p.g.locked), p.g.cells, p.g.locked)
  {
    building', items' := building, items;
    if p.current < EXPRESSION_LIMIT {
      AppendFree(p, list, car, a, building, items, t);
      building', items' := building + [|old(p.g).cells|], items + [t];
    } else {
      p.Append(list, car, building);
    }
  }

  /** lispAppend while there is a cell left. */
  method AppendFree(p: Lisp, list: Ref, car: Ref, ghost a: Pool, ghost building: seq<Ref>,
                    ghost items: seq<Tree>, ghost t: Tree)
    requires Sound(p) && Building(a, p.g, building, items) && HeadIs(building, list)
    requires Means(p, car, t) && Free(p.State())
    modifies p.Repr
    ensures Sound(p) && p.State() == Take(old(p.State()))
    ensures Building(a, p.g, building + [|old(p.g).cells|], items + [t])
    ensures Kept(old(p.g.cells), old(p.g.locked), p.g.cells, p.g.locked)
  {
    ghost var p0 := p.g;
    MarkBytesAppended(p, p0.cells, building, car, p0.mark);
    p.Append(list, car, building);
    Relock(p, p.g.locked + {|p0.cells|});
    ExtendList(a, p0, p.g, building, items, car, t);
  }

  ghost method Finish(p: Lisp, a: Pool, building: seq<Ref>, items: seq<Tree>)
    requires Sound(p) && Building(a, p.g, building, items)
    modifies p`g
    ensures Sound(p) && Grown(a, p.g, []) && p.State() == old(p.State())
    ensures Means(p, building[0], FromSeq(items))
    ensures Kept(old(p.g.cells), old(p.g.locked), p.g.cells, p.g.locked)
  {
    ghost var p0 := p.g;
    Relock(p, Unlock(p.g, building).locked);
    FinishList(a, p0, p.g, building, items);
  }

  // ---------------------------------------------------------------- reading cells

  /** lispIsList. */
  function ListAt(p: Lisp, r: Ref, ghost t: Tree): (b: bool)
    requires Sound(p) && Means(p, r, t)
    reads p, p.Repr
    ensures b == IsList(t)
  {
    r != NULL && p.slots[r].ListSlot?
  }

  /** r->list.car */
  function CarOf(p: Lisp, r: Ref, ghost t: Tree): (c: Ref)
    requires Sound(p) && Means(p, r, t) && IsList(t)
    reads p, p.Repr
    ensures Means(p, c, Car(t))
  {
    p.slots[r].car
  }

  /** r->list.cdr */
  function CdrOf(p: Lisp, r: Ref, ghost t: Tree): (c: Ref)
    requires Sound(p) && Means(p, r, t) && IsList(t)
    reads p, p.Repr
    ensures Means(p, c, Cdr(t))
  {
    p.slots[r].cdr
  }

  /** The type tag of a cell and what goes with it. */
  function SlotOf(p: Lisp, r: Ref, ghost t: Tree): (s: Slot)
    requires Sound(p) && Means(p, r, t) && t != Null
    reads p, p.Repr
    ensures s.AtomSlot? <==> t.Atom?
    ensures s.ListSlot? <==> IsList(t)
    ensures s.LambdaSlot? <==> t.Lambda?
    ensures t.Lambda? ==> Means(p, s.arguments, t.arguments) && Means(p, s.expression, t.expression)
    ensures t.Prim? ==> s == PrimitiveSlot(t.handler)
  {
    p.slots[r]
  }

  /** lispIsAtom. */
  method IsAtom(p: Lisp, r: Ref, name: seq<byte>, ghost t: Tree) returns (b: bool)
    requires Sound(p) && Means(p, r, t)
    ensures b == (t == Atom(name))
  {
    if r == NULL || !p.slots[r].AtomSlot? {
      return false;
    }
    var n := p.Name(r);
    b := n == name;
  }

  /** lispLookup. */
  method Find(p: Lisp, expression: Ref, ghost name: seq<byte>) returns (r: Ref)
    requires Sound(p) && Means(p, expression, Atom(name))
    ensures Means(p, r, Lookup(name, p.g.env))
  {
    var key := p.Name(expression);
    ghost var g := p.g;
    EnvironmentChain(g);
    var e := p.environment;
    ghost var i := 0;
    while e != NULL
      invariant i <= |g.env| == |g.spine| && e == if i < |g.env| then g.spine[i] else NULL
      invariant Lookup(name, g.env) == Lookup(name, g.env[i..])
      decreases |g.env| - i
    {
      assert g.cells[g.spine[i]].LIST? && BindingTrees(g.env)[i] == BindingTree(g.env[i]);
      ghost var b := g.env[i];
      assert g.env[i..][0] == b && g.env[i..][1..] == g.env[i + 1..];
      var item := p.slots[e].car;
      assert Means(p, item, BindingTree(b));
      var nameRef := CarOf(p, item, BindingTree(b));
      var found := IsAtom(p, nameRef, key, NameTree(b));
      if found {
        var rest := CdrOf(p, item, BindingTree(b));
        return CarOf(p, rest, List(b.value, Null));
      }
      e := p.slots[e].cdr;
      i := i + 1;
    }
    return NULL;
  }

  // ---------------------------------------------------------------- evaluation

  /** lispEvaluate. */
  method Evaluate(p: Lisp, expression: Ref, ghost t: Tree) returns (r: Ref)
    requires Sound(p) && Means(p, expression, t)
    requires Eval(t, p.State()).Value?
    modifies p.Repr
    ensures Yields(p, r, old(Eval(t, p.State())))
    decreases Left(p.State()), 0, Weight(t), 1
  {
    hide Sound, Good, Grown, Building;
    Begin(p);
    if expression == NULL {
      r := NIL;
    } else if ListAt(p, expression, t) {
      var car := CarOf(p, expression, t);
      var lambda := IsAtom(p, car, Ascii("lambda"), Car(t));
      if lambda {
        r := MakeLambda(p, CdrOf(p, expression, t), Cdr(t));
      } else {
        r := EvaluateList(p, expression, t);
      }
    } else {
      r := EvaluateSymbol(p, expression, t);
    }
  }

  /**
   * The general list case of lispEvaluate: evaluate all elements into a new list, then apply it.  When
   * there is no cell for the new list the expression itself is returned.
   */
  method EvaluateList(p: Lisp, expression: Ref, ghost t: Tree) returns (r: Ref)
    requires Sound(p) && Means(p, expression, t)
    requires IsList(t) && Car(t) != Atom(Ascii("lambda")) && Eval(t, p.State()).Value?
    modifies p.Repr
    ensures Yields(p, r, old(Eval(t, p.State())))
    decreases Left(p.State()), 0, Weight(t), 0
  {
    hide Sound, Good, Grown, Building;
    ghost var a, w := p.g, p.State();
    var f := Evaluate(p, CarOf(p, expression, t), Car(t));
    ghost var b, head := p.g, Eval(Car(t), w).value;
    GrownKept(a, b, []);
    DenotesKept(a.cells, a.locked, b.cells, b.locked, expression, t);
    var result := NewList(p, f, a, head);
    DenotesKept(b.cells, b.locked, p.g.cells, p.g.locked, expression, t);
    r := expression;
    if result != NULL {
      r := EvaluateCall(p, result, CdrOf(p, expression, t), Cdr(t), a, head);
    }
  }

  /** The rest of it, once the new list is begun. */
  method EvaluateCall(p: Lisp, result: Ref, first: Ref, ghost t: Tree, ghost a: Pool, ghost head: Tree)
      returns (r: Ref)
    requires Sound(p) && Building(a, p.g, [result], [head]) && Means(p, first, t)
    requires EvalCall(t, p.State(), head).Value?
    modifies p.Repr
    ensures Sound(p) && Grown(a, p.g, [])
    ensures var o := old(EvalCall(t, p.State(), head)); p.State() == o.world && Means(p, r, o.value)
    decreases Left(p.State()), 10, 0, 0
  {
    hide Sound, Good, Grown, Building;
    var failed;
    ghost var building, items;
    failed, building, items := EvaluateElements(p, result, first, t, a, head);
    Begin(p);
    Finish(p, a, building, items);
    r := NULL;
    if !failed {
      ghost var b := p.g;
      r := EvaluateFunction(p, result, items);
      GrownTrans(a, b, p.g, []);
    }
  }

  /** The argument loop; it fails when an element, or the append of its value, has left an error. */
  method EvaluateElements(p: Lisp, result: Ref, first: Ref, ghost t: Tree,
                          ghost a: Pool, ghost head: Tree)
      returns (failed: bool, ghost building: seq<Ref>, ghost items: seq<Tree>)
    requires Sound(p) && Building(a, p.g, [result], [head])
    requires Means(p, first, t)
    requires !EvalArguments(t, p.State(), [head]).NoValues?
    modifies p.Repr
    ensures Sound(p) && Building(a, p.g, building, items) && HeadIs(building, result)
    ensures old(EvalArguments(t, p.State(), [head])) ==
            if failed then Failed(p.State()) else Values(items, p.State())
    decreases Left(p.State()), 4, 0, 0
  {
    hide Sound, Good, Grown, Building;
    failed, building, items := false, [result], [head];
    ghost var rest, total := t, EvalArguments(t, p.State(), [head]);
    var e := first;
    while ListAt(p, e, rest)
      invariant Sound(p) && Building(a, p.g, building, items) && HeadIs(building, result)
      invariant Means(p, e, rest)
      invariant EvalArguments(rest, p.State(), items) == total && p.State().cells >= old(p.State()).cells
      decreases |Elems(rest)|
    {
      failed, e, rest, building, items := EvaluateStep(p, result, e, rest, a, building, items);
      if failed {
        return;
      }
    }
    failed := false;
  }

  /** One turn of the argument loop; NULL elements are skipped. */
  method EvaluateStep(p: Lisp, result: Ref, e: Ref, ghost rest: Tree,
                      ghost a: Pool, ghost building: seq<Ref>, ghost items: seq<Tree>)
      returns (failed: bool, e': Ref, ghost rest': Tree, ghost building': seq<Ref>, ghost items': seq<Tree>)
    requires Sound(p) && Building(a, p.g, building, items) && HeadIs(building, result)
    requires Means(p, e, rest) && IsList(rest)
    requires !EvalArguments(rest, p.State(), items).NoValues?
    modifies p.Repr
    ensures Sound(p) && Building(a, p.g, building', items') && HeadIs(building', result)
    ensures rest' == Cdr(rest) && Means(p, e', rest')
    ensures p.State().cells >= old(p.State()).cells
    ensures old(EvalArguments(rest, p.State(), items)) ==
            if failed then Failed(p.State()) else EvalArguments(rest', p.State(), items')
    decreases Left(p.State()), 3, 0, 0
  {
    hide Sound, Good, Grown, Building;
    failed, building', items' := false, building, items;
    if CarOf(p, e, rest) != NULL {
      failed, building', items' := EvaluateElement(p, result, e, rest, a, building, items);
    }
    e', rest' := CdrOf(p, e, rest), Cdr(rest);
  }

  /** lispAppend(result, lispEvaluate(expression->list.car)), and the look at lispError. */
  method EvaluateElement(p: Lisp, result: Ref, e: Ref, ghost rest: Tree,
                         ghost a: Pool, ghost building: seq<Ref>, ghost items: seq<Tree>)
      returns (failed: bool, ghost building': seq<Ref>, ghost items': seq<Tree>)
    requires Sound(p) && Building(a, p.g, building, items) && HeadIs(building, result)
    requires Means(p, e, rest) && rest.List? && !rest.car.Null?
    requires !EvalArguments(rest, p.State(), items).NoValues?
    modifies p.Repr
    ensures Sound(p) && Building(a, p.g, building', items') && HeadIs(building', result)
    ensures Means(p, e, rest)
    ensures p.State().cells >= old(p.State()).cells
    ensures old(EvalArguments(rest, p.State(), items)) ==
            if failed then Failed(p.State()) else EvalArguments(rest.cdr, p.State(), items')
    decreases Left(p.State()), 2, 0, 0
  {
    hide Sound, Good, Grown, Building;
    ghost var p0, w0 := p.g, p.State();
    var v := Evaluate(p, CarOf(p, e, rest), rest.car);
    ghost var p1 := p.g;
    GrownKept(p0, p1, []);
    DenotesKept(p0.cells, p0.locked, p1.cells, p1.locked, e, rest);
    Begin(p);
    KeepBuilding(a, p0, p1, building, items);
    building', items' := AppendTo(p, result, v, a, building, items, Eval(rest.car, w0).value);
    DenotesKept(p1.cells, p1.locked, p.g.cells, p.g.locked, e, rest);
    failed := p.error != NoError;
  }

  /** lispEvaluateFunction. */
  method EvaluateFunction(p: Lisp, expression: Ref, ghost vs: seq<Tree>) returns (r: Ref)
    requires Sound(p) && vs != [] && Means(p, expression, FromSeq(vs))
    requires Apply(vs, p.State()).Value?
    modifies p.Repr
    ensures Yields(p, r, old(Apply(vs, p.State())))
    decreases Left(p.State()), 9, 0, 0
  {
    hide Sound, Good, Grown, Building;
    Begin(p);
    ghost var values := FromSeq(vs[1..]);
    assert FromSeq(vs) == List(vs[0], values);
    var symbol := CarOf(p, expression, FromSeq(vs));
    match SlotOf(p, symbol, vs[0])
    case LambdaSlot(_, _) =>
      r := ApplyLambdaCell(p, expression, vs[0], values);
    case PrimitiveSlot(h) =>
      var arguments := CdrOf(p, expression, FromSeq(vs));
      r := CallPrimitive(p, h, arguments, values);
    case _ =>
      r := expression;
  }

  /** The last case of lispEvaluate: a name stands for its value, if it has one. */
  method EvaluateSymbol(p: Lisp, expression: Ref, ghost t: Tree) returns (r: Ref)
    requires Sound(p) && Means(p, expression, t) && t.Atom?
    requires Eval(t, p.State()).Value?
    ensures Eval(t, p.State()).world == p.State() && Means(p, r, Eval(t, p.State()).value)
  {
    var value := Find(p, expression, t.name);
    r := if value != NULL then value else expression;
  }

  /** The lambda case of lispEvaluate. */
  method MakeLambda(p: Lisp, lambda: Ref, ghost t: Tree) returns (r: Ref)
    requires Sound(p) && Means(p, lambda, t) && IsList(t) && IsList(Cdr(t))
    modifies p.Repr
    ensures Yields(p, r, old(Value(if Free(p.State()) then Lambda(Car(t), Car(Cdr(t))) else Null, Take(p.State()))))
  {
    hide Sound, Good, Grown, Building;
    var arguments := CarOf(p, lambda, t);
    var expression := CarOf(p, CdrOf(p, lambda, t), Cdr(t));
    r := NewLambda(p, arguments, expression, Car(t), Car(Cdr(t)));
  }

  /** lispCreateLambda. */
  method NewLambda(p: Lisp, arguments: Ref, expression: Ref, ghost a: Tree, ghost e: Tree) returns (r: Ref)
    requires Sound(p) && Means(p, arguments, a) && Means(p, expression, e)
    modifies p.Repr
    ensures Yields(p, r, old(Value(if Free(p.State()) then Lambda(a, e) else Null, Take(p.State()))))
  {
    hide Lisp.Valid, Good, Grown, Building;
    Begin(p);
    ghost var p0 := p.g;
    r := p.CreateLambda(arguments, expression);
    if r != NULL {
      assert p.g.cells[..p0.mark] == p0.cells[..p0.mark];
      Pushed(p0, p0, p.g, LAMBDA(arguments, expression));
      DenotesKept(p0.cells, p0.locked, p.g.cells, p.g.locked, arguments, a);
      DenotesKept(p0.cells, p0.locked, p.g.cells, p.g.locked, expression, e);
    }
  }

  // ---------------------------------------------------------------- primitives.c

  /** lispCreateList on finished lists. */
  method NewCell(p: Lisp, car: Ref, cdr: Ref, ghost x: Tree, ghost y: Tree) returns (r: Ref)
    requires Sound(p) && Means(p, car, x) && Means(p, cdr, y)
    modifies p.Repr
    ensures Yields(p, r, old(Value(if Free(p.State()) then List(x, y) else Null, Take(p.State()))))
    ensures Kept(old(p.g.cells), old(p.g.locked), p.g.cells, p.g.locked)
  {
    hide Lisp.Valid, Good, Grown, Building;
    Begin(p);
    ghost var p0 := p.g;
    r := p.CreateList(car, cdr);
    if r != NULL {
      assert p.g.cells[..p0.mark] == p0.cells[..p0.mark];
      Pushed(p0, p0, p.g, LIST(car, cdr));
      DenotesKept(p0.cells, p0.locked, p.g.cells, p.g.locked, car, x);
      DenotesKept(p0.cells, p0.locked, p.g.cells, p.g.locked, cdr, y);
    }
  }

  /** The world after the two cells of a pair have been tried. */
  function PairWorld(w: World): World {
    if Free(w) then Take(Take(w)) else Take(w)
  }

  /** The list (key value) for lispInterleave; the key is read only if there is a cell for the value. */
  method NewPair(p: Lisp, list1: Ref, list2: Ref, ghost ps: Tree, ghost vs: Tree) returns (r: Ref)
    requires Sound(p) && Means(p, list1, ps) && Means(p, list2, vs)
    requires IsList(vs) && (Free(p.State()) ==> IsList(ps))
    modifies p.Repr
    ensures Sound(p) && Grown(old(p.g), p.g, []) && p.State() == PairWorld(old(p.State()))
    ensures r != NULL <==> Free(old(p.State())) && Free(Take(old(p.State())))
    ensures r != NULL ==> Means(p, r, PairTree((Car(ps), Car(vs))))
    ensures Means(p, list1, ps) && Means(p, list2, vs)
  {
    hide Sound, Good, Grown, Building;
    ghost var a, w, value := p.g, p.State(), Car(vs);
    var list := NewCell(p, CarOf(p, list2, vs), NULL, value, Null);
    ghost var b := p.g;
    DenotesKept(a.cells, a.locked, b.cells, b.locked, list1, ps);
    DenotesKept(a.cells, a.locked, b.cells, b.locked, list2, vs);
    r := NULL;
    if list != NULL {
      r := NewCell(p, CarOf(p, list1, ps), list, Car(ps), List(value, Null));
      DenotesKept(b.cells, b.locked, p.g.cells, p.g.locked, list1, ps);
      DenotesKept(b.cells, b.locked, p.g.cells, p.g.locked, list2, vs);
      GrownTrans(a, b, p.g, []);
    }
  }

  lemma PairTreesAppend(pairs: seq<(Tree, Tree)>, pair: (Tree, Tree))
    ensures PairTrees(pairs + [pair]) == PairTrees(pairs) + [PairTree(pair)]
  {
  }

  /** What the loop of lispInterleave makes of the rest of both lists, `pairs` being done. */
  ghost function PairRest(pairs: seq<(Tree, Tree)>, ps: Tree, vs: Tree, w: World): Pairing {
    if IsList(ps) then
      match PairUp(ps, vs, w, false)
      case Paired(rest, w1) => Paired(pairs + rest, w1)
      case other => other
    else Paired(pairs, w)
  }

  /** lispInterleave: an association list of parameters and values, if every allocation succeeds. */
  method Interleave(p: Lisp, list1: Ref, list2: Ref, ghost ps: Tree, ghost vs: Tree) returns (result: Ref)
    requires Sound(p) && Means(p, list1, ps) && Means(p, list2, vs)
    requires !PairUp(ps, vs, p.State(), true).Missing?
    modifies p.Repr
    ensures Sound(p) && Grown(old(p.g), p.g, [])
    ensures match old(PairUp(ps, vs, p.State(), true))
      case Paired(pairs, w) => p.State() == w && Means(p, result, FromSeq(PairTrees(pairs)))
      case Unpaired(w) => p.State() == w
      case Missing => true
  {
    hide Sound, Good, Grown, Building;
    ghost var a, w := p.g, p.State();
    result := NULL;
    var newList := NewPair(p, list1, list2, ps, vs);
    if newList != NULL {
      ghost var b, pair := p.g, (Car(ps), Car(vs));
      result := NewList(p, newList, a, PairTree(pair));
      DenotesKept(b.cells, b.locked, p.g.cells, p.g.locked, list1, ps);
      DenotesKept(b.cells, b.locked, p.g.cells, p.g.locked, list2, vs);
      if result != NULL {
        assert PairTrees([pair]) == [PairTree(pair)];
        ghost var building, pairs;
        building, pairs :=
          InterleaveRest(p, result, CdrOf(p, list1, ps), CdrOf(p, list2, vs), Cdr(ps), Cdr(vs), a, [pair]);
        Finish(p, a, building, PairTrees(pairs));
      }
    }
  }

  /** The loop of lispInterleave. */
  method InterleaveRest(p: Lisp, result: Ref, list1: Ref, list2: Ref, ghost ps: Tree, ghost vs: Tree,
                        ghost a: Pool, ghost first: seq<(Tree, Tree)>)
      returns (ghost building: seq<Ref>, ghost pairs: seq<(Tree, Tree)>)
    requires Sound(p) && Building(a, p.g, [result], PairTrees(first)) && Means(p, list1, ps) && Means(p, list2, vs)
    requires !PairRest(first, ps, vs, p.State()).Missing?
    modifies p.Repr
    ensures Sound(p) && Building(a, p.g, building, PairTrees(pairs)) && HeadIs(building, result)
    ensures var o := old(PairRest(first, ps, vs, p.State()));
            o == Paired(pairs, p.State()) || o == Unpaired(p.State())
  {
    hide Sound, Good, Grown, Building;
    building, pairs := [result], first;
    var l1, l2, newList := list1, list2, NULL;
    ghost var qs, us, total := ps, vs, PairRest(first, ps, vs, p.State());
    while ListAt(p, l1, qs)
      invariant Sound(p) && Building(a, p.g, building, PairTrees(pairs)) && HeadIs(building, result)
      invariant Means(p, l1, qs) && Means(p, l2, us)
      invariant Remains(total, pairs, qs, us, p.State())
      decreases |Elems(qs)|
    {
      RemainsStep(total, pairs, qs, us, p.State());
      newList, l1, l2, building, pairs := InterleaveStep(p, result, l1, l2, qs, us, a, building, pairs);
      if newList == NULL {
        break;
      }
      qs, us := Cdr(qs), Cdr(us);
    }
  }

  /** The loop is on its way to `total`; or the append of a pair has failed, and the next allocation will. */
  ghost predicate Remains(total: Pairing, pairs: seq<(Tree, Tree)>, ps: Tree, vs: Tree, w: World) {
    || (total == PairRest(pairs, ps, vs, w) && !total.Missing?)
    || (total == Unpaired(w) && Take(w) == w && (IsList(ps) ==> IsList(vs)))
  }

  lemma RemainsStep(total: Pairing, pairs: seq<(Tree, Tree)>, ps: Tree, vs: Tree, w: World)
    requires IsList(ps) && Remains(total, pairs, ps, vs, w)
    ensures IsList(vs)
    ensures if Free(w) && Free(Take(w)) then
              Remains(total, PairDone(pairs, ps, vs, w), Cdr(ps), Cdr(vs), Take(Take(Take(w))))
            else total == Unpaired(PairWorld(w))
  {
    if total == PairRest(pairs, ps, vs, w) && PairUp(ps, vs, w, false).Paired? && IsList(Cdr(ps)) {
      var rest := PairUp(Cdr(ps), Cdr(vs), Take(Take(Take(w))), false).pairs;
      assert pairs + ([(Car(ps), Car(vs))] + rest) == pairs + [(Car(ps), Car(vs))] + rest;
    }
  }

  /** The pairs after one more turn that got its first two cells. */
  ghost function PairDone(pairs: seq<(Tree, Tree)>, ps: Tree, vs: Tree, w: World): seq<(Tree, Tree)>
    requires IsList(ps) && IsList(vs)
  {
    if Free(Take(Take(w))) then pairs + [(Car(ps), Car(vs))] else pairs
  }

  /** One turn of the loop of lispInterleave. */
  method InterleaveStep(p: Lisp, result: Ref, list1: Ref, list2: Ref, ghost ps: Tree, ghost vs: Tree,
                        ghost a: Pool, ghost building: seq<Ref>, ghost pairs: seq<(Tree, Tree)>)
      returns (newList: Ref, l1: Ref, l2: Ref, ghost building': seq<Ref>, ghost pairs': seq<(Tree, Tree)>)
    requires Sound(p) && Building(a, p.g, building, PairTrees(pairs)) && HeadIs(building, result)
    requires Means(p, list1, ps) && Means(p, list2, vs) && IsList(ps) && IsList(vs)
    modifies p.Repr
    ensures Sound(p) && Building(a, p.g, building', PairTrees(pairs')) && HeadIs(building', result)
    ensures newList != NULL <==> Free(old(p.State())) && Free(Take(old(p.State())))
    ensures newList == NULL ==> p.State() == PairWorld(old(p.State()))
    ensures newList != NULL ==>
              && p.State() == Take(Take(Take(old(p.State())))) && pairs' == PairDone(pairs, ps, vs, old(p.State()))
              && Means(p, l1, Cdr(ps)) && Means(p, l2, Cdr(vs))
  {
    hide Sound, Good, Grown, Building;
    ghost var p0, w := p.g, p.State();
    building', pairs', l1, l2 := building, pairs, list1, list2;
    newList := NewPair(p, list1, list2, ps, vs);
    Begin(p);
    KeepBuilding(a, p0, p.g, building, PairTrees(pairs));
    if newList != NULL {
      ghost var p1, pair, items := p.g, (Car(ps), Car(vs)), [];
      l1, l2 := CdrOf(p, list1, ps), CdrOf(p, list2, vs);
      building', items := AppendTo(p, result, newList, a, building, PairTrees(pairs), PairTree(pair));
      PairTreesAppend(pairs, pair);
      pairs' := PairDone(pairs, ps, vs, w);
      DenotesKept(p1.cells, p1.locked, p.g.cells, p.g.locked, l1, Cdr(ps));
      DenotesKept(p1.cells, p1.locked, p.g.cells, p.g.locked, l2, Cdr(vs));
    }
  }

  /** Two pointers keep their meaning over two steps. */
  lemma KeepTwo(p0: Pool, p1: Pool, p2: Pool, r: Ref, t: Tree, s: Ref, u: Tree)
    requires Kept(p0.cells, p0.locked, p1.cells, p1.locked) && Kept(p1.cells, p1.locked, p2.cells, p2.locked)
    requires Denotes(p0.cells, p0.locked, r, t) && Denotes(p0.cells, p0.locked, s, u)
    ensures Denotes(p2.cells, p2.locked, r, t) && Denotes(p2.cells, p2.locked, s, u)
  {
    DenotesKept(p0.cells, p0.locked, p1.cells, p1.locked, r, t);
    DenotesKept(p0.cells, p0.locked, p1.cells, p1.locked, s, u);
    DenotesKept(p1.cells, p1.locked, p2.cells, p2.locked, r, t);
    DenotesKept(p1.cells, p1.locked, p2.cells, p2.locked, s, u);
  }

  /** `assoc` is the list of `pairs`. */
  ghost predicate Associates(assoc: Tree, pairs: seq<(Tree, Tree)>)
    decreases pairs
  {
    if pairs == [] then assoc == Null
    else assoc.List? && assoc.car == PairTree(pairs[0]) && Associates(assoc.cdr, pairs[1..])
  }

  lemma {:induction false} PairTreesAssociate(pairs: seq<(Tree, Tree)>)
    ensures Associates(FromSeq(PairTrees(pairs)), pairs)
  {
    if pairs != [] {
      PairTreesAssociate(pairs[1..]);
      assert PairTrees(pairs)[1..] == PairTrees(pairs[1..]);
    }
  }

  /** lispReplace: a copy of the body with parameters replaced; the values themselves are shared. */
  method ReplaceIn(p: Lisp, expression: Ref, replacement: Ref, ghost body: Tree, ghost assoc: Tree,
                   ghost pairs: seq<(Tree, Tree)>) returns (r: Ref)
    requires Sound(p) && Means(p, expression, body) && Means(p, replacement, assoc) && Associates(assoc, pairs)
    requires Replace(body, pairs, p.State()).Copied?
    modifies p.Repr
    ensures Yields(p, r, old(Made(Replace(body, pairs, p.State()))))
    decreases body, 3
  {
    hide Sound, Good, Grown, Building;
    Begin(p);
    if ListAt(p, expression, body) {
      r := ReplaceList(p, expression, replacement, body, assoc, pairs);
    } else {
      r := ReplaceSymbol(p, expression, replacement, body.name, assoc, pairs);
    }
  }

  function Made(c: Copying): Outcome {
    match c
    case Copied(t, w) => Value(t, w)
    case Wild => Stuck
  }

  /** The list case of lispReplace. */
  method ReplaceList(p: Lisp, expression: Ref, replacement: Ref, ghost body: Tree, ghost assoc: Tree,
                     ghost pairs: seq<(Tree, Tree)>) returns (r: Ref)
    requires Sound(p) && Means(p, expression, body) && Means(p, replacement, assoc) && Associates(assoc, pairs)
    requires IsList(body) && Replace(body, pairs, p.State()).Copied?
    modifies p.Repr
    ensures Yields(p, r, old(Made(Replace(body, pairs, p.State()))))
    decreases body, 2
  {
    hide Sound, Good, Grown, Building;
    ghost var a, w := p.g, p.State();
    var first := ReplaceIn(p, CarOf(p, expression, body), replacement, body.car, assoc, pairs);
    ghost var b, x := p.g, Replace(body.car, pairs, w).tree;
    GrownKept(a, b, []);
    r := NewList(p, first, a, x);
    KeepTwo(a, b, p.g, expression, body, replacement, assoc);
    if r != NULL {
      ghost var building, items;
      building, items := ReplaceElements(p, r, CdrOf(p, expression, body), replacement, body.cdr, assoc, pairs, a, x);
      Finish(p, a, building, items);
    }
  }

  /** The loop of lispReplace. */
  method ReplaceElements(p: Lisp, result: Ref, first: Ref, replacement: Ref, ghost t: Tree, ghost assoc: Tree,
                         ghost pairs: seq<(Tree, Tree)>, ghost a: Pool, ghost head: Tree)
      returns (ghost building: seq<Ref>, ghost items: seq<Tree>)
    requires Sound(p) && Building(a, p.g, [result], [head])
    requires Means(p, first, t) && Means(p, replacement, assoc) && Associates(assoc, pairs)
    requires ReplaceRest(t, pairs, p.State(), [head]).Copied?
    modifies p.Repr
    ensures Sound(p) && Building(a, p.g, building, items) && HeadIs(building, result)
    ensures old(ReplaceRest(t, pairs, p.State(), [head])) == Copied(FromSeq(items), p.State())
    decreases t, 4
  {
    hide Sound, Good, Grown, Building;
    building, items := [result], [head];
    var e := first;
    ghost var rest, total := t, ReplaceRest(t, pairs, p.State(), [head]);
    while ListAt(p, e, rest)
      invariant Sound(p) && Building(a, p.g, building, items) && HeadIs(building, result)
      invariant Means(p, e, rest) && Means(p, replacement, assoc)
      invariant ReplaceRest(rest, pairs, p.State(), items) == total
      invariant rest == t || rest < t
      decreases |Elems(rest)|
    {
      e, building, items := ReplaceStep(p, result, e, replacement, rest, assoc, pairs, a, building, items);
      rest := rest.cdr;
    }
  }

  /** One turn of the loop of lispReplace. */
  method ReplaceStep(p: Lisp, result: Ref, e: Ref, replacement: Ref, ghost rest: Tree, ghost assoc: Tree,
                     ghost pairs: seq<(Tree, Tree)>, ghost a: Pool, ghost building: seq<Ref>, ghost items: seq<Tree>)
      returns (e': Ref, ghost building': seq<Ref>, ghost items': seq<Tree>)
    requires Sound(p) && Building(a, p.g, building, items) && HeadIs(building, result)
    requires Means(p, e, rest) && IsList(rest) && Means(p, replacement, assoc) && Associates(assoc, pairs)
    requires ReplaceRest(rest, pairs, p.State(), items).Copied?
    modifies p.Repr
    ensures Sound(p) && Building(a, p.g, building', items') && HeadIs(building', result)
    ensures rest.List? && Means(p, e', rest.cdr) && Means(p, replacement, assoc)
    ensures ReplaceRest(rest.cdr, pairs, p.State(), items') == old(ReplaceRest(rest, pairs, p.State(), items))
    decreases rest, 3
  {
    hide Sound, Good, Grown, Building;
    ghost var p0 := p.g;
    e' := CdrOf(p, e, rest);
    building', items' :=
      ReplaceElement(p, result, CarOf(p, e, rest), replacement, rest.car, assoc, pairs, a, building, items);
    DenotesKept(p0.cells, p0.locked, p.g.cells, p.g.locked, e', rest.cdr);
    DenotesKept(p0.cells, p0.locked, p.g.cells, p.g.locked, replacement, assoc);
  }

  /** lispAppend(result, lispReplace(element, replacement)). */
  method ReplaceElement(p: Lisp, result: Ref, element: Ref, replacement: Ref, ghost t: Tree, ghost assoc: Tree,
                        ghost pairs: seq<(Tree, Tree)>, ghost a: Pool, ghost building: seq<Ref>, ghost items: seq<Tree>)
      returns (ghost building': seq<Ref>, ghost items': seq<Tree>)
    requires Sound(p) && Building(a, p.g, building, items) && HeadIs(building, result)
    requires Means(p, element, t) && Means(p, replacement, assoc) && Associates(assoc, pairs)
    requires Replace(t, pairs, p.State()).Copied?
    modifies p.Repr
    ensures Sound(p) && Building(a, p.g, building', items') && HeadIs(building', result)
    ensures var c := old(Replace(t, pairs, p.State()));
            p.State() == Take(c.world) && items' == if Free(c.world) then items + [c.tree] else items
    ensures Kept(old(p.g.cells), old(p.g.locked), p.g.cells, p.g.locked)
    decreases t, 4
  {
    hide Sound, Good, Grown, Building;
    ghost var p0, c := p.g, Replace(t, pairs, p.State());
    var v := ReplaceIn(p, element, replacement, t, assoc, pairs);
    ghost var p1 := p.g;
    GrownKept(p0, p1, []);
    Begin(p);
    KeepBuilding(a, p0, p1, building, items);
    building', items' := AppendTo(p, result, v, a, building, items, c.tree);
    KeptTrans(p0, p1, p.g);
  }

  lemma KeptTrans(p0: Pool, p1: Pool, p2: Pool)
    requires Kept(p0.cells, p0.locked, p1.cells, p1.locked) && Kept(p1.cells, p1.locked, p2.cells, p2.locked)
    ensures Kept(p0.cells, p0.locked, p2.cells, p2.locked)
  {
  }

  /** The atom case of lispReplace: a walk along the association list. */
  method ReplaceSymbol(p: Lisp, expression: Ref, replacement: Ref, ghost name: seq<byte>, ghost assoc: Tree,
                       ghost pairs: seq<(Tree, Tree)>) returns (r: Ref)
    requires Sound(p) && Means(p, expression, Atom(name)) && Means(p, replacement, assoc) && Associates(assoc, pairs)
    ensures Means(p, r, ReplaceAtom(name, pairs))
  {
    var key := p.Name(expression);
    var e := replacement;
    ghost var list, rest := assoc, pairs;
    while e != NULL
      invariant Means(p, e, list) && Associates(list, rest) && ReplaceAtom(name, rest) == ReplaceAtom(name, pairs)
      decreases |rest|
    {
      ghost var item := PairTree(rest[0]);
      var pair := CarOf(p, e, list);
      var found := IsAtom(p, CarOf(p, pair, item), key, rest[0].0);
      if found {
        return CarOf(p, CdrOf(p, pair, item), List(rest[0].1, Null));
      }
      e := CdrOf(p, e, list);
      list, rest := list.cdr, rest[1..];
    }
    r := expression;
  }

  /** lispPrimitiveLambda on a list whose first element is the lambda and whose others are the values. */
  method ApplyLambdaCell(p: Lisp, expression: Ref, ghost lambda: Tree, ghost values: Tree)
      returns (r: Ref)
    requires Sound(p) && Means(p, expression, List(lambda, values)) && lambda.Lambda?
    requires ApplyLambda(lambda, values, p.State()).Value?
    modifies p.Repr
    ensures Yields(p, r, old(ApplyLambda(lambda, values, p.State())))
    decreases Left(p.State()), 5, 0, 0
  {
    hide Sound, Good, Grown, Building;
    ghost var a, w := p.g, p.State();
    var cell := CarOf(p, expression, List(lambda, values));
    var body := SlotOf(p, cell, lambda).expression;
    var list2 := CdrOf(p, expression, List(lambda, values));
    var arguments := Interleave(p, SlotOf(p, cell, lambda).arguments, list2, lambda.arguments, values);
    r := NULL;
    if p.error == NoError {
      ghost var b, pairs := p.g, PairUp(lambda.arguments, values, w, true).pairs;
      GrownKept(a, b, []);
      DenotesKept(a.cells, a.locked, b.cells, b.locked, body, lambda.expression);
      r := ApplyBody(p, body, arguments, lambda.expression, pairs);
      GrownTrans(a, b, p.g, []);
    }
  }

  /** The part of lispPrimitiveLambda behind its first look at lispError. */
  method ApplyBody(p: Lisp, body: Ref, arguments: Ref, ghost t: Tree, ghost pairs: seq<(Tree, Tree)>)
      returns (r: Ref)
    requires Sound(p) && Means(p, body, t) && Means(p, arguments, FromSeq(PairTrees(pairs)))
    requires EvalBody(t, pairs, p.State()).Value?
    modifies p.Repr
    ensures Yields(p, r, old(EvalBody(t, pairs, p.State())))
    decreases Left(p.State()), 4, 0, 0
  {
    hide Sound, Good, Grown, Building;
    ghost var a, w := p.g, p.State();
    PairTreesAssociate(pairs);
    var input := ReplaceIn(p, body, arguments, t, FromSeq(PairTrees(pairs)), pairs);
    r := NULL;
    if p.error == NoError {
      ghost var b := p.g;
      r := Evaluate(p, input, Replace(t, pairs, w).tree);
      GrownTrans(a, b, p.g, []);
    }
  }

  /** The call through primitive.handler. */
  method CallPrimitive(p: Lisp, h: Primitive, args: Ref, ghost t: Tree) returns (r: Ref)
    requires Sound(p) && Means(p, args, t)
    requires ApplyPrimitive(h, t, p.State()).Value?
    modifies p.Repr
    ensures Yields(p, r, old(ApplyPrimitive(h, t, p.State())))
    decreases Left(p.State()), 7, 0, 0
  {
    hide Sound, Good, Grown, Building;
    Begin(p);
    match h
    case PAtom =>
      r := if SlotOf(p, CarOf(p, args, t), Car(t)).AtomSlot? then TRUTH else NIL;
    case PCar =>
      r := CarOf(p, CarOf(p, args, t), Car(t));
    case PCdr =>
      r := CdrOf(p, CarOf(p, args, t), Car(t));
    case PCond =>
      r := Cond(p, args, t);
    case PCons =>
      r := Cons(p, args, t);
    case PEqual =>
      r := Equal(p, args, t);
    case PLambda =>
      r := ApplyLambdaCell(p, args, Car(t), Cdr(t));
    case PLabel =>
      r := Label(p, args, t);
    case PQuote =>
      r := CarOf(p, args, t);
  }

  /** lispPrimitiveEqual. */
  method Equal(p: Lisp, args: Ref, ghost t: Tree) returns (r: Ref)
    requires Sound(p) && Means(p, args, t) && IsList(t) && Car(t).Atom? && IsList(Cdr(t))
    ensures Means(p, r, if Car(Cdr(t)) == Car(t) then TRUTH_TREE else Nil)
  {
    Begin(p);
    var name := p.Name(CarOf(p, args, t));
    var equal := IsAtom(p, CarOf(p, CdrOf(p, args, t), Cdr(t)), name, Car(Cdr(t)));
    r := if equal then TRUTH else NIL;
  }

  /** lispPrimitiveCond. */
  method Cond(p: Lisp, args: Ref, ghost t: Tree) returns (r: Ref)
    requires Sound(p) && Means(p, args, t) && EvalCond(t, p.State()).Value?
    modifies p.Repr
    ensures Yields(p, r, old(EvalCond(t, p.State())))
    decreases Left(p.State()), 6, 0, 0
  {
    hide Sound, Good, Grown, Building;
    Begin(p);
    ghost var a, rest, total := p.g, t, EvalCond(t, p.State());
    var e := args;
    while ListAt(p, e, rest)
      invariant Sound(p) && Grown(a, p.g, []) && Means(p, e, rest)
      invariant EvalCond(rest, p.State()) == total && p.State().cells >= old(p.State()).cells
      decreases |Elems(rest)|
    {
      ghost var clause := rest.car;
      var condition := EvaluatePredicate(p, e, rest, a);
      var result := CarOf(p, CdrOf(p, CarOf(p, e, rest), clause), Cdr(clause));
      if condition != NIL {
        ghost var b := p.g;
        r := Evaluate(p, result, Car(Cdr(clause)));
        GrownTrans(a, b, p.g, []);
        return;
      }
      e, rest := CdrOf(p, e, rest), rest.cdr;
    }
    Begin(p);
    r := NIL;
  }

  /** The predicate of the first of the clauses `e`; one that is already nil is not evaluated again. */
  method EvaluatePredicate(p: Lisp, e: Ref, ghost rest: Tree, ghost a: Pool) returns (result: Ref)
    requires Sound(p) && Grown(a, p.g, []) && Means(p, e, rest) && rest.List? && IsList(rest.car)
    requires EvalPredicate(Car(rest.car), p.State()).Value?
    modifies p.Repr
    ensures Sound(p) && Grown(a, p.g, []) && Means(p, e, rest)
    ensures var o := old(EvalPredicate(Car(rest.car), p.State()));
            p.State() == o.world && (result == NIL <==> o.value.Nil?)
    decreases Left(p.State()), 5, 0, 0
  {
    hide Sound, Good, Grown, Building;
    result := NIL;
    var condition := CarOf(p, CarOf(p, e, rest), rest.car);
    if condition != NIL {
      ghost var b := p.g;
      result := Evaluate(p, condition, Car(rest.car));
      GrownTrans(a, b, p.g, []);
      GrownKept(b, p.g, []);
      DenotesKept(b.cells, b.locked, p.g.cells, p.g.locked, e, rest);
    }
  }

  /** lispPrimitiveCons: the second argument is copied, as far as there are cells. */
  method Cons(p: Lisp, args: Ref, ghost t: Tree) returns (r: Ref)
    requires Sound(p) && Means(p, args, t) && ApplyPrimitive(PCons, t, p.State()).Value?
    modifies p.Repr
    ensures Yields(p, r, old(ApplyPrimitive(PCons, t, p.State())))
  {
    hide Sound, Good, Grown, Building;
    Begin(p);
    ghost var a := p.g;
    r := NewList(p, CarOf(p, args, t), a, Car(t));
    if r != NULL {
      ghost var rest, building, items := Car(Cdr(t)), [r], [Car(t)];
      DenotesKept(a.cells, a.locked, p.g.cells, p.g.locked, args, t);
      building, items := CopyElements(p, r, CarOf(p, CdrOf(p, args, t), Cdr(t)), rest, a, building, items);
      Finish(p, a, building, items);
    }
  }

  /** The loop of lispPrimitiveCons. */
  method CopyElements(p: Lisp, list: Ref, from: Ref, ghost t: Tree, ghost a: Pool,
                      ghost start: seq<Ref>, ghost first: seq<Tree>)
      returns (ghost building: seq<Ref>, ghost items: seq<Tree>)
    requires Sound(p) && Building(a, p.g, start, first) && HeadIs(start, list) && Means(p, from, t)
    modifies p.Repr
    ensures Sound(p) && Building(a, p.g, building, items) && HeadIs(building, list)
    ensures (items, p.State()) == old(Gather(first, Elems(t), p.State()))
  {
    hide Sound, Good, Grown, Building;
    var e := from;
    ghost var rest, total := t, Gather(first, Elems(t), p.State());
    building, items := start, first;
    while ListAt(p, e, rest)
      invariant Sound(p) && Building(a, p.g, building, items) && HeadIs(building, list) && Means(p, e, rest)
      invariant Gather(items, Elems(rest), p.State()) == total
      decreases |Elems(rest)|
    {
      ghost var b := p.g;
      building, items := AppendTo(p, list, CarOf(p, e, rest), a, building, items, Car(rest));
      DenotesKept(b.cells, b.locked, p.g.cells, p.g.locked, e, rest);
      assert Elems(rest)[1..] == Elems(Cdr(rest));
      e, rest := CdrOf(p, e, rest), Cdr(rest);
    }
  }

  /** lispCreateAtom. */
  method NewAtom(p: Lisp, name: seq<byte>) returns (r: Ref)
    requires Sound(p) && |name| <= ATOM_SIZE_LIMIT
    modifies p.Repr
    ensures Yields(p, r, old(Value(if NameFits(p.State(), name) then Atom(name) else Null, TakeName(p.State(), name))))
    ensures Kept(old(p.g.cells), old(p.g.locked), p.g.cells, p.g.locked)
  {
    hide Lisp.Valid, Good, Grown, Building;
    Begin(p);
    ghost var p0 := p.g;
    r := p.CreateAtom(name);
    if r != NULL {
      assert p.g.cells[..p0.mark] == p0.cells[..p0.mark];
      Pushed(p0, p0, p.g, ATOM(name));
    }
  }

  /** lispPrimitiveLabel: a permanent binding at the end of the environment, or what there is room for. */
  method Label(p: Lisp, args: Ref, ghost t: Tree) returns (r: Ref)
    requires Sound(p) && Means(p, args, t) && IsList(t) && Car(t).Atom? && IsList(Cdr(t))
    modifies p.Repr
    ensures Yields(p, r, old(Value(TRUTH_TREE, Bind(Car(t).name, Car(Cdr(t)), p.State()))))
  {
    hide Sound, Good, Grown, Building;
    ghost var a, w, v := p.g, p.State(), Car(Cdr(t));
    var value := CarOf(p, CdrOf(p, args, t), Cdr(t));
    var name := ShortName(p, CarOf(p, args, t), Car(t).name);
    var labelName := NewAtom(p, name);
    ghost var b := p.g;
    ghost var k := if NameFits(w, name) then Atom(name) else Null;
    DenotesKept(a.cells, a.locked, b.cells, b.locked, value, v);
    var item := NewItem(p, labelName, value, k, v);
    ghost var c := p.g;
    GrownTrans(a, b, c, []);
    r := Publish(p, item, if NameFits(w, name) then Binding(name, v) else Nameless(v));
    GrownTrans(a, c, p.g, []);
  }

  /** The two nested calls of lispCreateList in lispPrimitiveLabel, neither of them checked. */
  method NewItem(p: Lisp, name: Ref, value: Ref, ghost k: Tree, ghost v: Tree) returns (r: Ref)
    requires Sound(p) && Means(p, name, k) && Means(p, value, v)
    modifies p.Repr
    ensures Sound(p) && Grown(old(p.g), p.g, []) && p.State() == Take(Take(old(p.State())))
    ensures Free(Take(old(p.State()))) ==> Means(p, r, List(k, List(v, Null)))
  {
    hide Sound, Good, Grown, Building;
    ghost var a, w := p.g, p.State();
    var list := NewCell(p, value, NULL, v, Null);
    ghost var b := p.g;
    DenotesKept(a.cells, a.locked, b.cells, b.locked, name, k);
    r := NewCell(p, name, list, k, if Free(w) then List(v, Null) else Null);
    GrownTrans(a, b, p.g, []);
  }

  /** Names in the pool are at most ATOM_SIZE_LIMIT bytes long. */
  method ShortName(p: Lisp, r: Ref, ghost n: seq<byte>) returns (name: seq<byte>)
    requires Sound(p) && Means(p, r, Atom(n))
    ensures name == n && |name| <= ATOM_SIZE_LIMIT
  {
    name := p.Name(r);
  }

  /** The lispAppend to the environment, and the move of the bookmark, which happens in any case. */
  method Publish(p: Lisp, item: Ref, ghost b: Binding) returns (r: Ref)
    requires Sound(p) && (Free(p.State()) ==> Means(p, item, BindingTree(b)))
    modifies p.Repr
    ensures Yields(p, r, old(var w := p.State(); var w1 := Take(w);
                             Value(TRUTH_TREE, w1.(env := if Free(w) then w.env + [b] else w.env,
                                              markCells := w1.cells, markBytes := w1.bytes))))
  {
    if p.current < EXPRESSION_LIMIT {
      r := PublishFree(p, item, b);
    } else {
      r := PublishFull(p, item);
    }
  }

  method PublishFree(p: Lisp, item: Ref, ghost b: Binding) returns (r: Ref)
    requires Sound(p) && Means(p, item, BindingTree(b)) && Free(p.State())
    modifies p.Repr
    ensures Yields(p, r, old(var w := Take(p.State());
                             Value(TRUTH_TREE, w.(env := w.env + [b], markCells := w.cells, markBytes := w.bytes))))
  {
    hide Lisp.Valid, Good, Grown;
    ghost var p0 := p.g;
    PublishedGood(p0, item, b);
    p.Append(p.environment, item, p0.spine);
    p.MoveBookmark(Published(p0, item, b));
    assert p.g.cells[..p.g.mark] == p.g.cells;
    Begin(p);
    r := TRUTH;
  }

  method PublishFull(p: Lisp, item: Ref) returns (r: Ref)
    requires Sound(p) && !Free(p.State())
    modifies p.Repr
    ensures Yields(p, r, old(var w := Take(p.State());
                             Value(TRUTH_TREE, w.(markCells := w.cells, markBytes := w.bytes))))
  {
    hide Lisp.Valid, Good, Grown;
    ghost var p0 := p.g;
    Begin(p);
    EnvironmentChain(p0);
    p.Append(p.environment, item, p0.spine);
    p.MoveBookmark(p0.(mark := |p0.cells|));
    MarkMoved(p0, p0, p.g);
    assert p.g.cells[..p.g.mark] == p.g.cells;
    Begin(p);
    r := TRUTH;
  }
}
