/**
 * What the primitives of src/common/lisp/primitives.c answer, and what the special cases of lispEvaluate
 * give, in terms of the trees they are called with.
 */
module PrimitiveLaws {
  import opened Bytes
  import opened Trees
  import opened Semantics
  import opened Laws

  // ---------------------------------------------------------------- car, cdr and cons

  /** car and cdr take a list apart, nil into two NULLs; anything else is a wild read. */
  lemma CarAndCdr(x: Tree, rest: Tree, w: World)
    ensures var car, cdr := ApplyPrimitive(PCar, List(x, rest), w), ApplyPrimitive(PCdr, List(x, rest), w);
            if x.List? then car == Value(x.car, w) && cdr == Value(x.cdr, w)
            else if x.Nil? then car == Value(Null, w) && cdr == Value(Null, w)
            else car == Stuck && cdr == Stuck
  {
  }

  /** cons of `x` and a list of `items`, as far as there are cells. */
  lemma ConsOfItems(x: Tree, items: seq<Tree>, w: World)
    requires w.cells <= EXPRESSION_LIMIT
    ensures var o := ApplyPrimitive(PCons, List(x, List(FromSeq(items), Null)), w);
            if Fits(w, 1 + |items|) then o == Value(List(x, FromSeq(items)), Alloc(w, 1 + |items|))
            else if Free(w) then o == Value(FromSeq([x] + items[..Left(w) - 1]), Full(w))
            else o == Value(Null, Full(w))
  {
    ElemsFromSeq(items);
    if Free(w) {
      GatherFits([x], items, Take(w));
      var n := if |items| <= Left(w) - 1 then |items| else Left(w) - 1;
      assert ([x] + items[..n])[1..] == items[..n];
      if n == |items| {
        assert items[..n] == items;
      }
    }
  }

  lemma {:induction false} GatherFits(done: seq<Tree>, more: seq<Tree>, w: World)
    requires w.cells <= EXPRESSION_LIMIT
    ensures Gather(done, more, w) ==
            if Fits(w, |more|) then (done + more, Alloc(w, |more|)) else (done + more[..Left(w)], Full(w))
    decreases more
  {
    if more != [] {
      var next := if Free(w) then done + [more[0]] else done;
      GatherFits(next, more[1..], Take(w));
      assert Gather(done, more, w) == Gather(next, more[1..], Take(w));
      if Fits(w, |more|) {
        assert done + [more[0]] + more[1..] == done + more;
      } else if Free(w) {
        assert done + [more[0]] + more[1..][..Left(w) - 1] == done + more[..Left(w)];
      } else {
        assert done + more[1..][..0] == done && done + more[..0] == done;
        assert |more| == 1 ==> done + more[1..] == done;
      }
    } else {
      assert done + more == done;
    }
  }

  /** A NULL-terminated list. */
  predicate Proper(t: Tree) {
    t.Null? || (t.List? && Proper(t.cdr))
  }

  lemma {:induction false} ProperItems(t: Tree)
    requires Proper(t)
    ensures FromSeq(Elems(t)) == t
  {
    if t.List? {
      ProperItems(t.cdr);
      assert Elems(t)[1..] == Elems(t.cdr);
    }
  }

  /** car of (cons x l) is x, cdr of it is l, and cons of car and cdr of a list gives it back. */
  lemma ConsLaws(x: Tree, l: Tree, w: World)
    requires Proper(l) && Fits(w, 1 + |Elems(l)|)
    ensures var o := ApplyPrimitive(PCons, List(x, List(l, Null)), w);
      && o.Value? && o.world == Alloc(w, 1 + |Elems(l)|)
      && ApplyPrimitive(PCar, List(o.value, Null), o.world) == Value(x, o.world)
      && ApplyPrimitive(PCdr, List(o.value, Null), o.world) == Value(l, o.world)
    ensures var list := List(x, l);
            var car, cdr := ApplyPrimitive(PCar, List(list, Null), w), ApplyPrimitive(PCdr, List(list, Null), w);
            && car.Value? && cdr.Value?
            && ApplyPrimitive(PCons, List(car.value, List(cdr.value, Null)), w) == Value(list, Alloc(w, 1 + |Elems(l)|))
  {
    ProperItems(l);
    ConsOfItems(x, Elems(l), w);
    CarAndCdr(List(x, l), Null, w);
    CarAndCdr(List(x, l), Null, Alloc(w, 1 + |Elems(l)|));
  }

  // ---------------------------------------------------------------- tests

  /** `atom` is true of atoms and of nothing else; NULL is a wild read. */
  lemma AtomTest(x: Tree, rest: Tree, w: World)
    ensures ApplyPrimitive(PAtom, List(x, rest), w) ==
            if x.Null? then Stuck
            else if x.Atom? then Value(Atom(Ascii("#t")), w)
            else Value(Nil, w)
  {
  }

  /** `equal` compares an atom with anything; a first argument that is none is a wild read. */
  lemma EqualTest(x: Tree, y: Tree, rest: Tree, w: World)
    ensures ApplyPrimitive(PEqual, List(x, List(y, rest)), w) ==
            if !x.Atom? then Stuck
            else if y.Atom? && y.name == x.name then Value(Atom(Ascii("#t")), w)
            else Value(Nil, w)
  {
  }

  // ---------------------------------------------------------------- cond

  /** What trying a predicate comes to: one that is the nil cell already is taken as it is. */
  predicate Tried(predicateTree: Tree, w: World, o: Outcome) {
    o == if predicateTree == Nil then Value(Nil, w) else Eval(predicateTree, w)
  }

  /** The predicates of these clauses give nil, one after the other, in these worlds. */
  predicate AllNil(clauses: seq<Tree>, worlds: seq<World>) {
    && |worlds| == |clauses| + 1
    && forall j :: 0 <= j < |clauses| ==>
         && IsList(clauses[j]) && IsList(Cdr(clauses[j]))
         && Tried(Car(clauses[j]), worlds[j], Value(Nil, worlds[j + 1]))
  }

  /** One clause. */
  lemma CondStep(clause: Tree, rest: Tree, w: World, o: Outcome)
    requires IsList(clause) && IsList(Cdr(clause)) && Tried(Car(clause), w, o)
    ensures ApplyPrimitive(PCond, List(clause, rest), w) ==
            if o.Stuck? then Stuck
            else if o.value == Nil then ApplyPrimitive(PCond, rest, o.world)
            else Eval(Car(Cdr(clause)), o.world)
  {
    hide Eval;
    CondIsEvalCond(List(clause, rest), w);
    if o.Value? {
      CondIsEvalCond(rest, o.world);
    }
    assert EvalPredicate(Car(clause), w) == o;
  }

  lemma CondIsEvalCond(args: Tree, w: World)
    ensures ApplyPrimitive(PCond, args, w) == EvalCond(args, w)
  {
  }

  lemma {:induction false} CondSkips(front: seq<Tree>, worlds: seq<World>, t: Tree)
    requires AllNil(front, worlds)
    ensures ApplyPrimitive(PCond, Before(front, t), worlds[0]) == ApplyPrimitive(PCond, t, worlds[|front|])
    decreases |front|
  {
    if front != [] {
      hide ApplyPrimitive, Eval;
      CondStep(front[0], Before(front[1..], t), worlds[0], Value(Nil, worlds[1]));
      assert forall j :: 0 <= j < |front[1..]| ==> front[1..][j] == front[j + 1] && worlds[1..][j] == worlds[j + 1];
      CondSkips(front[1..], worlds[1..], t);
    }
  }

  /**
   * `cond` takes the first clause whose predicate does not give nil, and gives the value of its result, in
   * the world the predicates have led to.
   */
  lemma CondTakes(front: seq<Tree>, worlds: seq<World>, clause: Tree, v: Tree, w: World, rest: Tree)
    requires AllNil(front, worlds) && IsList(clause) && IsList(Cdr(clause))
    requires Tried(Car(clause), worlds[|front|], Value(v, w)) && v != Nil
    ensures ApplyPrimitive(PCond, Before(front, List(clause, rest)), worlds[0]) == Eval(Car(Cdr(clause)), w)
  {
    hide ApplyPrimitive, Eval, Tried, AllNil;
    CondSkips(front, worlds, List(clause, rest));
    AllNilLength(front, worlds);
    CondStep(clause, rest, worlds[|front|], Value(v, w));
  }

  lemma AllNilLength(clauses: seq<Tree>, worlds: seq<World>)
    requires AllNil(clauses, worlds)
    ensures |worlds| == |clauses| + 1
  {
  }

  /** If all predicates give nil, so does `cond`. */
  lemma CondEnds(clauses: seq<Tree>, worlds: seq<World>)
    requires AllNil(clauses, worlds)
    ensures ApplyPrimitive(PCond, FromSeq(clauses), worlds[0]) == Value(Nil, worlds[|clauses|])
  {
    CondSkips(clauses, worlds, Null);
    BeforeNull(clauses);
  }

  // ---------------------------------------------------------------- special cases of lispEvaluate

  /** NULL stands for nil. */
  lemma NullIsNil(w: World)
    ensures Eval(Null, w) == Value(Nil, w)
  {
  }

  /** NULL elements of a list are left out of a call, but for the head. */
  lemma NullElements(front: seq<Tree>, rest: Tree, w: World, done: seq<Tree>)
    requires forall i :: 0 <= i < |front| ==> front[i] == Null
    ensures EvalArguments(Before(front, rest), w, done) == EvalArguments(rest, w, done)
    decreases |front|
  {
    if front != [] {
      NullElements(front[1..], rest, w, done);
    }
  }

  /** (lambda parameters body) */
  function LambdaOf(parameters: Tree, body: Tree): Tree {
    List(Atom(Ascii("lambda")), List(parameters, List(body, Null)))
  }

  /** A lambda expression gives the lambda of its parameters and its body, for one cell. */
  lemma LambdaExpression(parameters: Tree, body: Tree, w: World)
    ensures Eval(LambdaOf(parameters, body), w) ==
            if w.cells < 160 then Value(Lambda(parameters, body), w.(cells := w.cells + 1))
            else Value(Null, w.(error := LimitExpressions))
  {
  }

  /** The primitive `lambda` applies its first argument to the others. */
  lemma LambdaPrimitive(lambda: Tree, values: Tree, w: World)
    ensures ApplyPrimitive(PLambda, List(lambda, values), w) ==
            if lambda.Lambda? then ApplyLambda(lambda, values, w) else Stuck
  {
  }

  /**
   * ((lambda parameters body) arguments ...): the value of the body with the parameters replaced, all at
   * once, by the values of the arguments.
   */
  lemma LambdaCall(parameters: Tree, body: Tree, args: Tree, w: World, values: seq<Tree>, w1: World)
    requires w.cells + 2 <= EXPRESSION_LIMIT && w1.cells <= EXPRESSION_LIMIT && w1.error == NoError
    requires EvalArguments(args, Alloc(w, 2), [Lambda(parameters, body)]) ==
             Values([Lambda(parameters, body)] + values, w1)
    requires Clean(body) && IsList(parameters) && |Elems(parameters)| <= |values|
    requires Fits(w1, 3 * |Elems(parameters)| + ReplaceCells(body))
    ensures Eval(List(LambdaOf(parameters, body), args), w) ==
            Eval(Substitute(body, FirstOf(ZipLists(Elems(parameters), values))),
                 Alloc(w1, 3 * |Elems(parameters)| + ReplaceCells(body)))
  {
    hide Eval, Clean, ReplaceCells, Substitute, ZipLists, EvalArguments, Ascii, ApplyLambda, FirstOf;
    var lambda := Lambda(parameters, body);
    LambdaExpression(parameters, body, w);
    HeadFirst(LambdaOf(parameters, body), args, w, lambda, Alloc(w, 1));
    var vs := [lambda] + values;
    assert vs[1..] == values;
    ElemsFromSeq(values);
    assert EvalCall(args, Alloc(w, 2), lambda) == Apply(vs, w1) == ApplyLambda(lambda, FromSeq(values), w1);
    BetaReduction(lambda, FromSeq(values), w1);
  }

  /** The head of a list is evaluated first, and its value begins the new list. */
  lemma HeadFirst(head: Tree, args: Tree, w: World, f: Tree, w1: World)
    requires head != Atom(Ascii("lambda")) && Eval(head, w) == Value(f, w1)
    ensures Eval(List(head, args), w) ==
            if w1.cells < 160 then EvalCall(args, w1.(cells := w1.cells + 1), f)
            else Value(List(head, args), w1.(error := LimitExpressions))
  {
  }
}
