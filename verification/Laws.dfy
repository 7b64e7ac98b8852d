/** Laws of the evaluator, stated on trees and worlds. */
module Laws {
  import opened Bytes
  import opened Trees
  import opened Semantics

  // ---------------------------------------------------------------- how a world grows

  /** The bookmark is within what is in use, and when it is at the end of the cells it is at that of the names. */
  predicate Coherent(w: World) {
    && w.markCells <= w.cells <= EXPRESSION_LIMIT && w.markBytes <= w.bytes <= HEAP_SIZE
    && (w.markCells == w.cells ==> w.markBytes == w.bytes)
  }

  /**
   * Bindings are only ever added, at the end, and nothing is given back; the pools' limits are kept; while
   * the bookmark stays there is no new binding and no new name; an error stays an error, and is about a limit.
   */
  ghost predicate Grows(w: World, w': World) {
    && Coherent(w') && w.env <= w'.env && w.cells <= w'.cells && w.bytes <= w'.bytes
    && w.markCells <= w'.markCells && w.markBytes <= w'.markBytes
    && (w'.markCells == w.markCells ==> w'.env == w.env && w'.bytes == w.bytes && w'.markBytes == w.markBytes)
    && (w'.error == w.error || w'.error == LimitExpressions || w'.error == LimitMemory)
  }

  lemma TakeGrows(w: World)
    requires Coherent(w)
    ensures Grows(w, Take(w))
  {
  }

  lemma GrowsTrans(u: World, v: World, w: World)
    requires Grows(u, v) && Grows(v, w)
    ensures Grows(u, w)
  {
  }

  lemma {:induction false} EvalGrows(e: Tree, w: World)
    requires Eval(e, w).Value? && Coherent(w)
    ensures Grows(w, Eval(e, w).world)
    decreases Left(w), 0, Weight(e)
  {
    TakeGrows(w);
    if IsList(e) && Car(e) != Atom(Ascii("lambda")) {
      EvalGrows(Car(e), w);
      var o := Eval(Car(e), w);
      TakeGrows(o.world);
      if Free(o.world) {
        CallGrows(Cdr(e), Take(o.world), o.value);
      }
    }
  }

  lemma {:induction false} CallGrows(rest: Tree, w: World, f: Tree)
    requires EvalCall(rest, w, f).Value? && Coherent(w)
    ensures Grows(w, EvalCall(rest, w, f).world)
    decreases Left(w), 6
  {
    ArgumentsGrows(rest, w, [f]);
    var o := EvalArguments(rest, w, [f]);
    if o.Values? {
      ApplyGrows(o.values, o.world);
    }
  }

  lemma {:induction false} ArgumentsGrows(rest: Tree, w: World, done: seq<Tree>)
    requires !EvalArguments(rest, w, done).NoValues? && Coherent(w)
    ensures Grows(w, EvalArguments(rest, w, done).world)
    decreases Left(w), 5, Weight(rest)
  {
    if rest.List? {
      if rest.car.Null? {
        ArgumentsGrows(rest.cdr, w, done);
      } else {
        EvalGrows(rest.car, w);
        var o := Eval(rest.car, w);
        TakeGrows(o.world);
        GrowsTrans(w, o.world, Take(o.world));
        if Take(o.world).error == NoError {
          ArgumentsGrows(rest.cdr, Take(o.world), done + [o.value]);
        }
      }
    }
  }

  lemma {:induction false} ApplyGrows(vs: seq<Tree>, w: World)
    requires vs != [] && Apply(vs, w).Value? && Coherent(w)
    ensures Grows(w, Apply(vs, w).world)
    decreases Left(w), 4
  {
    var values := FromSeq(vs[1..]);
    match vs[0] {
      case Lambda(_, _) => LambdaGrows(vs[0], values, w);
      case Prim(h) => PrimitiveGrows(h, values, w);
      case _ =>
    }
  }

  lemma {:induction false} PrimitiveGrows(h: Primitive, args: Tree, w: World)
    requires ApplyPrimitive(h, args, w).Value? && Coherent(w)
    ensures Grows(w, ApplyPrimitive(h, args, w).world)
    decreases Left(w), 3
  {
    match h {
      case PCond => CondGrows(args, w);
      case PLambda => LambdaGrows(Car(args), Cdr(args), w);
      case PCons =>
        TakeGrows(w);
        if Free(w) {
          GatherGrows([Car(args)], Elems(Car(Cdr(args))), Take(w));
        }
      case PLabel => BindGrows(Car(args).name, Car(Cdr(args)), w);
      case _ =>
    }
  }

  lemma BindGrows(name: seq<byte>, value: Tree, w: World)
    requires Coherent(w)
    ensures Grows(w, Bind(name, value, w))
  {
  }

  lemma {:induction false} GatherGrows(done: seq<Tree>, more: seq<Tree>, w: World)
    requires Coherent(w)
    ensures Grows(w, Gather(done, more, w).1)
    decreases more
  {
    if more != [] {
      TakeGrows(w);
      GatherGrows(if Free(w) then done + [more[0]] else done, more[1..], Take(w));
    }
  }

  lemma {:induction false} PairUpGrows(ps: Tree, vs: Tree, w: World, first: bool)
    requires Coherent(w) && !PairUp(ps, vs, w, first).Missing?
    ensures Grows(w, PairUp(ps, vs, w, first).world)
    decreases ps
  {
    var w3 := Take(Take(Take(w)));
    TakeGrows(w);
    TakeGrows(Take(w));
    TakeGrows(Take(Take(w)));
    if IsList(ps) && IsList(vs) && Free(Take(Take(w))) && IsList(Cdr(ps)) {
      PairUpGrows(Cdr(ps), Cdr(vs), w3, false);
    }
  }

  lemma {:induction false} ReplaceGrows(body: Tree, pairs: seq<(Tree, Tree)>, w: World)
    requires Coherent(w) && Replace(body, pairs, w).Copied?
    ensures Grows(w, Replace(body, pairs, w).world)
    decreases body, 0
  {
    if body.List? {
      ReplaceGrows(body.car, pairs, w);
      var c := Replace(body.car, pairs, w);
      TakeGrows(c.world);
      if Free(c.world) {
        RestGrows(body.cdr, pairs, Take(c.world), [c.tree]);
      }
    }
  }

  lemma {:induction false} RestGrows(rest: Tree, pairs: seq<(Tree, Tree)>, w: World, done: seq<Tree>)
    requires Coherent(w) && ReplaceRest(rest, pairs, w, done).Copied?
    ensures Grows(w, ReplaceRest(rest, pairs, w, done).world)
    decreases rest, 1
  {
    if rest.List? {
      ReplaceGrows(rest.car, pairs, w);
      var c := Replace(rest.car, pairs, w);
      TakeGrows(c.world);
      RestGrows(rest.cdr, pairs, Take(c.world), if Free(c.world) then done + [c.tree] else done);
    }
  }

  lemma {:induction false} LambdaGrows(lambda: Tree, values: Tree, w: World)
    requires lambda.Lambda? && ApplyLambda(lambda, values, w).Value? && Coherent(w)
    ensures Grows(w, ApplyLambda(lambda, values, w).world)
    decreases Left(w), 2, 0
  {
    PairUpGrows(lambda.arguments, values, w, true);
    var o := PairUp(lambda.arguments, values, w, true);
    if o.Paired? && o.world.error == NoError {
      ReplaceGrows(lambda.expression, o.pairs, o.world);
      var c := Replace(lambda.expression, o.pairs, o.world);
      GrowsTrans(w, o.world, c.world);
      if c.world.error == NoError {
        EvalGrows(c.tree, c.world);
      }
    }
  }

  lemma {:induction false} CondGrows(clauses: Tree, w: World)
    requires EvalCond(clauses, w).Value? && Coherent(w)
    ensures Grows(w, EvalCond(clauses, w).world)
    decreases Left(w), 2, Weight(clauses)
  {
    if clauses.List? {
      var clause := clauses.car;
      if !Car(clause).Nil? {
        EvalGrows(Car(clause), w);
      }
      var o := EvalPredicate(Car(clause), w);
      if o.value.Nil? {
        CondGrows(clauses.cdr, o.world);
      } else {
        EvalGrows(Car(Cdr(clause)), o.world);
      }
    }
  }

  // ---------------------------------------------------------------- lookup

  predicate Bound(name: seq<byte>, env: Environment) {
    exists i :: 0 <= i < |env| && IsNamed(env[i], name)
  }

  /**
   * Bindings added at the end: a bound name keeps its value, because the first match wins; an unbound
   * one is looked up among the new bindings.
   */
  lemma {:induction false} LookupAppend(name: seq<byte>, env: Environment, more: Environment)
    ensures Lookup(name, env + more) == if Bound(name, env) then Lookup(name, env) else Lookup(name, more)
    ensures Bound(name, env + more) <==> Bound(name, env) || Bound(name, more)
  {
    if env == [] {
      assert env + more == more;
    } else {
      assert (env + more)[1..] == env[1..] + more;
      LookupAppend(name, env[1..], more);
      assert Bound(name, env) <==> IsNamed(env[0], name) || Bound(name, env[1..]) by {
        assert forall i :: 1 <= i < |env| ==> env[i] == env[1..][i - 1];
      }
      assert Bound(name, env + more) <==> Bound(name, env) || Bound(name, more) by {
        assert forall i :: 0 <= i < |more| ==> (env + more)[|env| + i] == more[i];
        assert forall i :: 0 <= i < |env| ==> (env + more)[i] == env[i];
      }
    }
  }

  /** There is room for all that `label` allocates. */
  predicate BindFits(name: seq<byte>, w: World) {
    Fits(w, 4) && w.bytes + |name| <= HEAP_SIZE
  }

  /**
   * `label` moves the bookmark in any case, to the end of what is in use.  It does so without adding its
   * binding exactly if fewer than four cells are left, or fewer bytes than the name has.  Then it leaves an
   * error, and all the cells it could get, for ever; three of them hang on the environment as a binding
   * without a name if only the name did not fit.
   */
  lemma LabelBinds(name: seq<byte>, value: Tree, w: World)
    requires w.cells <= EXPRESSION_LIMIT
    ensures var w' := Bind(name, value, w);
      && w'.markCells == w'.cells && w'.markBytes == w'.bytes
      && (w'.env == w.env + [Binding(name, value)] <==> BindFits(name, w))
      && (BindFits(name, w) ==> w'.error == w.error && w'.cells == w.cells + 4 && w'.bytes == w.bytes + |name|)
      && (!BindFits(name, w) ==>
            && w'.error == (if Fits(w, 3) && !NameFits(w, name) then LimitMemory else LimitExpressions)
            && w'.env == (if Fits(w, 3) && !NameFits(w, name) then w.env + [Nameless(value)] else w.env)
            && w'.bytes == w.bytes + (if NameFits(w, name) then |name| else 0)
            && w'.cells == (if Fits(w, 3) && !NameFits(w, name) then w.cells + 3 else EXPRESSION_LIMIT))
  {
    var with, without := w.env + [Binding(name, value)], w.env + [Nameless(value)];
    assert with[|w.env|] != without[|w.env|];
  }

  /** A binding that fits gives an unbound name its value; what no other name stands for changes in any case. */
  lemma LookupAfterLabel(name: seq<byte>, value: Tree, w: World, other: seq<byte>)
    ensures var env := Bind(name, value, w).env;
            && (BindFits(name, w) && !Bound(name, w.env) ==> Lookup(name, env) == value)
            && (Bound(other, w.env) || other != name || !BindFits(name, w) ==>
                  Lookup(other, env) == Lookup(other, w.env))
  {
    var fits := NameFits(w, name);
    var binding := if fits then Binding(name, value) else Nameless(value);
    LookupAppend(name, w.env, [binding]);
    LookupAppend(other, w.env, [binding]);
    LookupUnbound(other, w.env);
    LookupUnbound(other, []);
  }

  lemma {:induction false} LookupUnbound(name: seq<byte>, env: Environment)
    ensures !Bound(name, env) ==> Lookup(name, env) == Null
  {
    LookupAppend(name, [], env);
    if env != [] && !Bound(name, env) {
      assert forall i :: 0 <= i < |env[1..]| ==> env[1..][i] == env[i + 1];
      assert !IsNamed(env[0], name);
      LookupUnbound(name, env[1..]);
    }
  }

  // ---------------------------------------------------------------- substitution

  /** Parameters to values; a parameter named twice stands for its first value. */
  function FirstOf(pairs: seq<(Tree, Tree)>): map<seq<byte>, Tree> {
    if pairs == [] then map[]
    else
      var rest := FirstOf(pairs[1..]);
      if pairs[0].0.Atom? then rest[pairs[0].0.name := pairs[0].1] else rest
  }

  /** Simultaneous substitution in a body of atoms and lists. */
  function Substitute(body: Tree, values: map<seq<byte>, Tree>): Tree {
    match body
    case Atom(name) => if name in values then values[name] else body
    case List(a, d) => List(Substitute(a, values), if IsList(d) then Substitute(d, values) else Null)
    case _ => body
  }

  /** A body lispReplace can walk: atoms and non-empty lists, and no other empty list inside. */
  predicate Clean(body: Tree) {
    match body
    case Atom(_) => true
    case List(a, d) => Clean(a) && (IsList(d) ==> Clean(d))
    case _ => false
  }

  lemma {:induction false} ReplaceAtomFirst(name: seq<byte>, pairs: seq<(Tree, Tree)>)
    ensures ReplaceAtom(name, pairs) == Substitute(Atom(name), FirstOf(pairs))
  {
    if pairs != [] {
      ReplaceAtomFirst(name, pairs[1..]);
    }
  }

  /**
   * lispReplace over the association list of lispInterleave is simultaneous, first-match-wins
   * substitution, if the body is clean and there are enough cells; with too few cells the pool ends full
   * and with the error set, unless the source writes through NULL; any other body is a wild read.
   */
  lemma {:induction false} ReplaceSubstitutes(body: Tree, pairs: seq<(Tree, Tree)>, w: World)
    requires w.cells <= EXPRESSION_LIMIT
    ensures var c := Replace(body, pairs, w);
            if !Clean(body) then c.Wild?
            else if Fits(w, ReplaceCells(body)) then
              c == Copied(Substitute(body, FirstOf(pairs)), Alloc(w, ReplaceCells(body)))
            else c.Wild? || c.world == Full(w)
    decreases body, 1
  {
    match body {
      case Atom(name) => ReplaceAtomFirst(name, pairs);
      case List(a, d) =>
        ReplaceSubstitutes(a, pairs, w);
        var c := Replace(a, pairs, w);
        if c.Copied? && Free(c.world) {
          RestSubstitutes(d, pairs, Take(c.world), [c.tree]);
          assert [c.tree][1..] == [];
        }
      case _ =>
    }
  }

  /** `front` followed by the list `t`. */
  function Before(front: seq<Tree>, t: Tree): Tree {
    if front == [] then t else List(front[0], Before(front[1..], t))
  }

  lemma {:induction false} BeforeNull(front: seq<Tree>)
    ensures Before(front, Null) == FromSeq(front)
  {
    if front != [] {
      BeforeNull(front[1..]);
    }
  }

  lemma {:induction false} BeforeAppend(front: seq<Tree>, x: Tree, t: Tree)
    ensures Before(front + [x], t) == Before(front, List(x, t))
  {
    if front == [] {
      assert [x][1..] == [];
    } else {
      BeforeAppend(front[1..], x, t);
      assert (front + [x])[1..] == front[1..] + [x];
    }
  }

  lemma {:induction false} RestSubstitutes(rest: Tree, pairs: seq<(Tree, Tree)>, w: World, done: seq<Tree>)
    requires w.cells <= EXPRESSION_LIMIT
    ensures var c := ReplaceRest(rest, pairs, w, done);
            if !IsList(rest) then c == Copied(Before(done, Null), w)
            else if !Clean(rest) then c.Wild?
            else if Fits(w, ReplaceCells(rest)) then
              c == Copied(Before(done, Substitute(rest, FirstOf(pairs))), Alloc(w, ReplaceCells(rest)))
            else c.Wild? || c.world == Full(w)
    decreases rest, 2
  {
    BeforeNull(done);
    if rest.List? {
      ReplaceSubstitutes(rest.car, pairs, w);
      var c := Replace(rest.car, pairs, w);
      if c.Copied? {
        RestSubstitutes(rest.cdr, pairs, Take(c.world), if Free(c.world) then done + [c.tree] else done);
        BeforeAppend(done, c.tree, if IsList(rest.cdr) then Substitute(rest.cdr, FirstOf(pairs)) else Null);
      }
    }
  }

  /** Cell number `k` of a copy, or a later one, is the first cell of a list with more elements. */
  predicate BeginsLater(body: Tree, k: int) {
    match body
    case List(a, d) =>
      || BeginsLater(a, k) || (IsList(d) && ReplaceCells(a) >= k) || RestBeginsLater(d, k - ReplaceCells(a) - 1)
    case _ => false
  }

  predicate RestBeginsLater(rest: Tree, k: int) {
    match rest
    case List(a, d) => BeginsLater(a, k) || RestBeginsLater(d, k - ReplaceCells(a) - 1)
    case _ => false
  }

  /** No cell has a number below zero. */
  lemma {:induction false} BeginsFromZero(t: Tree, k: int)
    requires k <= 0
    ensures BeginsLater(t, k) == BeginsLater(t, 0)
    decreases t, 1
  {
    if t.List? {
      BeginsFromZero(t.car, k);
      RestFromZero(t.cdr, k - ReplaceCells(t.car) - 1);
      RestFromZero(t.cdr, 0 - ReplaceCells(t.car) - 1);
    }
  }

  lemma {:induction false} RestFromZero(t: Tree, k: int)
    requires k <= 0
    ensures RestBeginsLater(t, k) == RestBeginsLater(t, 0)
    decreases t, 0
  {
    if t.List? {
      BeginsFromZero(t.car, k);
      RestFromZero(t.cdr, k - ReplaceCells(t.car) - 1);
      RestFromZero(t.cdr, 0 - ReplaceCells(t.car) - 1);
    }
  }

  /** The world after `n` cells have been tried. */
  function TakeUpTo(w: World, n: nat): World {
    if Fits(w, n) then Alloc(w, n) else Full(w)
  }

  /**
   * The copy of a clean body is a write through NULL exactly if the first cell that is missing, or a later
   * one, would have begun a list with more elements.
   */
  lemma {:induction false} ReplaceBreaks(body: Tree, pairs: seq<(Tree, Tree)>, w: World)
    requires Clean(body) && w.cells <= EXPRESSION_LIMIT
    ensures var c := Replace(body, pairs, w);
            if BeginsLater(body, Left(w)) then c.Wild?
            else c.Copied? && c.world == TakeUpTo(w, ReplaceCells(body))
    decreases body, 1
  {
    if body.List? {
      ReplaceBreaks(body.car, pairs, w);
      var c := Replace(body.car, pairs, w);
      if c.Copied? && Free(c.world) {
        RestBreaks(body.cdr, pairs, Take(c.world), [c.tree]);
      } else if c.Copied? {
        RestFromZero(body.cdr, Left(w) - ReplaceCells(body.car) - 1);
        NoList(body.cdr, 0);
      }
    }
  }

  lemma NoList(t: Tree, k: int)
    ensures !IsList(t) ==> !RestBeginsLater(t, k)
  {
  }

  lemma {:induction false} RestBreaks(rest: Tree, pairs: seq<(Tree, Tree)>, w: World, done: seq<Tree>)
    requires (IsList(rest) ==> Clean(rest)) && w.cells <= EXPRESSION_LIMIT
    ensures var c := ReplaceRest(rest, pairs, w, done);
            if RestBeginsLater(rest, Left(w)) then c.Wild?
            else c.Copied? && c.world == TakeUpTo(w, if IsList(rest) then ReplaceCells(rest) else 0)
    decreases rest, 2
  {
    if rest.List? {
      ReplaceBreaks(rest.car, pairs, w);
      var c := Replace(rest.car, pairs, w);
      if c.Copied? {
        var w1 := Take(c.world);
        RestBreaks(rest.cdr, pairs, w1, if Free(c.world) then done + [c.tree] else done);
        if !Fits(w, ReplaceCells(rest.car) + 1) {
          RestFromZero(rest.cdr, Left(w) - ReplaceCells(rest.car) - 1);
          RestFromZero(rest.cdr, Left(w1));
        }
      }
    }
  }

  /** The cells that applying a lambda takes before its body is evaluated. */
  function ApplyCells(lambda: Tree): nat
    requires lambda.Lambda?
  {
    3 * |Elems(lambda.arguments)| + ReplaceCells(lambda.expression)
  }

  /**
   * Applying a lambda is evaluating its body with the parameters replaced by the values, if there are
   * cells for that.  If not, it ends with NULL and the error, but for a write through NULL, exactly if the
   * pairs fit and one of the cells missing to the copy would have begun a list with more elements.
   */
  lemma BetaReduction(lambda: Tree, values: Tree, w: World)
    requires lambda.Lambda? && w.cells <= EXPRESSION_LIMIT && w.error == NoError
    requires Matched(lambda.arguments, values) && Clean(lambda.expression)
    ensures var pairs, n := ZipLists(Elems(lambda.arguments), Elems(values)), 3 * |Elems(lambda.arguments)|;
            var o := ApplyLambda(lambda, values, w);
            if Fits(w, ApplyCells(lambda)) then
              o == Eval(Substitute(lambda.expression, FirstOf(pairs)), Alloc(w, ApplyCells(lambda)))
            else if Fits(w, n) && BeginsLater(lambda.expression, Left(w) - n) then o == Stuck
            else o == Value(Null, Full(w))
  {
    hide Eval, EvalBody, PairUp, Replace, Substitute, BeginsLater, Clean, Matched, ZipLists, FirstOf,
         Elems, ReplaceCells;
    PairUpZips(lambda.arguments, values, w, true);
    var o := PairUp(lambda.arguments, values, w, true);
    if o.Paired? {
      BodyReduction(lambda.expression, o.pairs, o.world);
    }
  }

  /** The part of it behind the association list. */
  lemma BodyReduction(body: Tree, pairs: seq<(Tree, Tree)>, w: World)
    requires Clean(body) && w.cells <= EXPRESSION_LIMIT && w.error == NoError
    ensures EvalBody(body, pairs, w) ==
            if Fits(w, ReplaceCells(body)) then Eval(Substitute(body, FirstOf(pairs)), Alloc(w, ReplaceCells(body)))
            else if BeginsLater(body, Left(w)) then Stuck
            else Value(Null, Full(w))
  {
    hide Eval, Replace, Substitute, BeginsLater, Clean, FirstOf, ReplaceCells;
    ReplaceSubstitutes(body, pairs, w);
    ReplaceBreaks(body, pairs, w);
  }

  function ZipLists(ps: seq<Tree>, vs: seq<Tree>): seq<(Tree, Tree)> {
    if ps == [] || vs == [] then [] else [(ps[0], vs[0])] + ZipLists(ps[1..], vs[1..])
  }

  /** There is a parameter, and a value for each of them. */
  predicate Matched(parameters: Tree, values: Tree) {
    IsList(parameters) && |Elems(parameters)| <= |Elems(values)|
  }

  /**
   * lispInterleave pairs parameters and values one by one, exactly if they match and there are three cells
   * for each pair; otherwise the pool ends full and with the error set, or a value is missing.
   */
  lemma {:induction false} PairUpZips(ps: Tree, vs: Tree, w: World, first: bool)
    requires w.cells <= EXPRESSION_LIMIT
    ensures var o := PairUp(ps, vs, w, first);
            if Matched(ps, vs) && Fits(w, 3 * |Elems(ps)|) then
              o == Paired(ZipLists(Elems(ps), Elems(vs)), Alloc(w, 3 * |Elems(ps)|))
            else o == Unpaired(Full(w)) || (o.Missing? && !Matched(ps, vs))
    decreases ps
  {
    if IsList(ps) && IsList(vs) {
      var xs, ys := Elems(ps), Elems(vs);
      assert xs[0] == Car(ps) && xs[1..] == Elems(Cdr(ps));
      assert ys[0] == Car(vs) && ys[1..] == Elems(Cdr(vs));
      assert ZipLists(xs, ys) == [(xs[0], ys[0])] + ZipLists(xs[1..], ys[1..]);
      if IsList(Cdr(ps)) {
        PairUpZips(Cdr(ps), Cdr(vs), Take(Take(Take(w))), false);
      } else {
        assert |xs| == 1 && ZipLists(xs, ys) == [(xs[0], ys[0])];
      }
    }
  }

  // ---------------------------------------------------------------- quote

  /** Every primitive gets its arguments evaluated, `quote` too: it gives back the value of its argument. */
  lemma QuoteEvaluates(e: Tree, w: World)
    requires Lookup(Ascii("quote"), w.env) == Prim(PQuote) && Fits(w, 1) && e != Null
    requires var o := Eval(e, Take(w)); o.Value? && Free(o.world) && o.world.error == NoError
    ensures var o := Eval(e, Take(w));
            Eval(List(Atom(Ascii("quote")), List(e, Null)), w) == Value(o.value, Take(o.world))
  {
    var o := Eval(e, Take(w));
    var x, w1, f := o.value, Take(o.world), Prim(PQuote);
    assert Ascii("quote") != Ascii("lambda");
    var rest := List(e, Null);
    var call := List(Atom(Ascii("quote")), rest);
    assert Eval(Atom(Ascii("quote")), w) == Value(f, w);
    assert Eval(call, w) == EvalCall(rest, Take(w), f);
    assert [f] + [x] == [f, x];
    assert EvalArguments(rest, Take(w), [f]) == EvalArguments(Null, w1, [f, x]);
    assert FromSeq([x]) == List(x, Null) by {
      assert [x][1..] == [];
    }
    assert [f, x][1..] == [x];
    assert Apply([f, x], w1) == ApplyPrimitive(PQuote, List(x, Null), w1);
  }

  /**
   * So `quote` does not do what it is named for: it gives back a name just when that is unbound, bound to
   * NULL, or bound to itself.
   */
  lemma QuoteName(name: seq<byte>, w: World)
    requires Lookup(Ascii("quote"), w.env) == Prim(PQuote) && Fits(w, 2) && w.error == NoError
    ensures var o := Eval(List(Atom(Ascii("quote")), List(Atom(name), Null)), w);
            && o.Value? && o.world == Alloc(w, 2)
            && (o.value == Atom(name) <==> Lookup(name, w.env) == Null || Lookup(name, w.env) == Atom(name))
  {
    QuoteEvaluates(Atom(name), w);
  }
}
