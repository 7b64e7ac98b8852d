/**
 * What an expression evaluates to: the evaluator of src/common/lisp/expression.c and primitives.c
 * as functions on trees.
 *
 * `World` is everything an evaluation can change: the bindings, how much of the two fixed pools is
 * in use, the bookmark a reset returns to, and the error.  An allocation that fails sets the error, and
 * the source goes on from there with what the allocator returned; so do these functions.  The one
 * outcome besides a value is `Stuck`, where the source reads or writes through NULL or the wrong member
 * of the union.
 *
 * Evaluation always ends.  No cell is given back before the next reset, and nothing but the head of a
 * list is evaluated without taking a cell first: the cells that are left, and then the tree, get smaller.
 */
module Semantics {
  import opened Bytes
  import opened Trees

  const HEAP_SIZE: nat := 256

  /** A binding whose name did not fit into the heap is there, but has no name. */
  datatype Binding = Binding(name: seq<byte>, value: Tree) | Nameless(value: Tree)
  type Environment = seq<Binding>

  datatype World = World(env: Environment, cells: nat, bytes: nat, markCells: nat, markBytes: nat, error: Error)

  datatype Outcome = Value(value: Tree, world: World) | Stuck

  /** The values of the elements; or the world in which an element ended with an error; or one is stuck. */
  datatype ListOutcome = Values(values: seq<Tree>, world: World) | Failed(world: World) | NoValues

  predicate IsNamed(b: Binding, name: seq<byte>) {
    b.Binding? && b.name == name
  }

  /** lispLookup: the first binding wins; NULL when there is none. */
  function Lookup(name: seq<byte>, env: Environment): Tree {
    if env == [] then Null
    else if IsNamed(env[0], name) then env[0].value
    else Lookup(name, env[1..])
  }

  // ---------------------------------------------------------------- allocation

  predicate Free(w: World) {
    w.cells < EXPRESSION_LIMIT
  }

  function Left(w: World): nat {
    if Free(w) then EXPRESSION_LIMIT - w.cells else 0
  }

  /** lispAllocateExpression: one more cell, or the error. */
  function Take(w: World): World {
    if Free(w) then w.(cells := w.cells + 1) else w.(error := LimitExpressions)
  }

  function Alloc(w: World, n: nat): World {
    w.(cells := w.cells + n)
  }

  predicate Fits(w: World, n: nat) {
    w.cells + n <= EXPRESSION_LIMIT
  }

  /** No cell is left, and that has been noticed. */
  function Full(w: World): World {
    w.(cells := EXPRESSION_LIMIT, error := LimitExpressions)
  }

  /** lispCreateAtom fits. */
  predicate NameFits(w: World, name: seq<byte>) {
    Free(w) && w.bytes + |name| <= HEAP_SIZE
  }

  /** lispCreateAtom: the cell is tried first, then the heap. */
  function TakeName(w: World, name: seq<byte>): World {
    if NameFits(w, name) then w.(cells := w.cells + 1, bytes := w.bytes + |name|)
    else w.(error := if Free(w) then LimitMemory else LimitExpressions)
  }

  /** Appending one after the other: from the first that does not fit on, nothing is appended. */
  function Gather(done: seq<Tree>, more: seq<Tree>, w: World): (r: (seq<Tree>, World))
    ensures r.1.cells >= w.cells
    decreases more
  {
    if more == [] then (done, w)
    else Gather(if Free(w) then done + [more[0]] else done, more[1..], Take(w))
  }

  // ---------------------------------------------------------------- application of a lambda

  function PairTree(pair: (Tree, Tree)): Tree {
    List(pair.0, List(pair.1, Null))
  }

  function PairTrees(pairs: seq<(Tree, Tree)>): seq<Tree> {
    seq(|pairs|, i requires 0 <= i < |pairs| => PairTree(pairs[i]))
  }

  /** The association list; or an allocation has failed; or a value or the parameters are missing. */
  datatype Pairing = Paired(pairs: seq<(Tree, Tree)>, world: World) | Unpaired(world: World) | Missing

  /**
   * lispInterleave: parameters beside values, three cells for each.  When the third cell of a pair fails,
   * the loop goes on and reads the next value before it notices.
   */
  function PairUp(parameters: Tree, values: Tree, w: World, first: bool): (o: Pairing)
    ensures o.Unpaired? ==> o.world.error == LimitExpressions && !Free(o.world)
    ensures !o.Missing? ==> o.world.cells >= w.cells
    decreases parameters
  {
    if !IsList(values) then Missing
    else if !Free(w) then Unpaired(Take(w))
    else if !IsList(parameters) then Missing
    else if !Free(Take(w)) then Unpaired(Take(Take(w)))
    else
      var w3 := Take(Take(Take(w)));
      if !Free(Take(Take(w))) then
        if !first && IsList(Cdr(parameters)) && !IsList(Cdr(values)) then Missing else Unpaired(w3)
      else if !IsList(Cdr(parameters)) then Paired([(Car(parameters), Car(values))], w3)
      else
        match PairUp(Cdr(parameters), Cdr(values), w3, false)
        case Paired(rest, w4) => Paired([(Car(parameters), Car(values))] + rest, w4)
        case other => other
  }

  /** The value of the first pair whose key is the atom `name`, or the atom itself. */
  function ReplaceAtom(name: seq<byte>, pairs: seq<(Tree, Tree)>): Tree {
    if pairs == [] then Atom(name)
    else if pairs[0].0 == Atom(name) then pairs[0].1
    else ReplaceAtom(name, pairs[1..])
  }

  /** A copy with the world it leaves, partial if that holds an error; or a wild read or write. */
  datatype Copying = Copied(tree: Tree, world: World) | Wild

  /**
   * lispReplace.  NULL, lambda and primitive cells inside a body are wild reads in the source; when the
   * first cell of a copied list fails, appending its other elements is a wild write.
   */
  function Replace(body: Tree, pairs: seq<(Tree, Tree)>, w: World): (c: Copying)
    ensures c.Copied? ==> c.world.cells >= w.cells
    decreases body, 0
  {
    match body
    case Atom(name) => Copied(ReplaceAtom(name, pairs), w)
    case List(a, d) =>
      (match Replace(a, pairs, w)
       case Wild => Wild
       case Copied(x, w1) =>
         if Free(w1) then ReplaceRest(d, pairs, Take(w1), [x])
         else if IsList(d) then Wild
         else Copied(Null, Take(w1)))
    case _ => Wild
  }

  /** The loop of lispReplace over the remaining elements, `done` being appended already. */
  function ReplaceRest(rest: Tree, pairs: seq<(Tree, Tree)>, w: World, done: seq<Tree>): (c: Copying)
    ensures c.Copied? ==> c.world.cells >= w.cells
    decreases rest, 1
  {
    match rest
    case List(a, d) =>
      (match Replace(a, pairs, w)
       case Wild => Wild
       case Copied(x, w1) => ReplaceRest(d, pairs, Take(w1), if Free(w1) then done + [x] else done))
    case Nil => Wild
    case _ => Copied(FromSeq(done), w)
  }

  /** The pool cells lispReplace takes: one for every list cell it walks over. */
  function ReplaceCells(body: Tree): nat {
    match body
    case List(a, d) => ReplaceCells(a) + 1 + (if IsList(d) then ReplaceCells(d) else 0)
    case _ => 0
  }

  // ---------------------------------------------------------------- evaluation

  /** lispEvaluate.  When the first cell of the new list fails, the expression itself is returned. */
  function Eval(e: Tree, w: World): (o: Outcome)
    ensures o.Value? ==> o.world.cells >= w.cells
    decreases Left(w), 0, Weight(e)
  {
    if e.Null? then Value(Nil, w)
    else if e.Atom? then
      var v := Lookup(e.name, w.env);
      Value(if v.Null? then e else v, w)
    else if !IsList(e) then Stuck
    else if Car(e) == Atom(Ascii("lambda")) then
      if !IsList(Cdr(e)) || !IsList(Cdr(Cdr(e))) then Stuck
      else Value(if Free(w) then Lambda(Car(Cdr(e)), Car(Cdr(Cdr(e)))) else Null, Take(w))
    else
      match Eval(Car(e), w)
      case Value(f, w1) =>
        if !Free(w1) then Value(e, Take(w1))
        else EvalCall(Cdr(e), Take(w1), f)
      case Stuck => Stuck
  }

  /** lispEvaluate, once the list is begun with the value of its first element. */
  function EvalCall(rest: Tree, w: World, f: Tree): (o: Outcome)
    ensures o.Value? ==> o.world.cells >= w.cells
    decreases Left(w), 6
  {
    match EvalArguments(rest, w, [f])
    case Values(vs, w1) => Apply(vs, w1)
    case Failed(w1) => Value(Null, w1)
    case NoValues => Stuck
  }

  /** The argument loop of lispEvaluate; `done` holds the values so far, the function first. */
  function EvalArguments(rest: Tree, w: World, done: seq<Tree>): (o: ListOutcome)
    ensures o.Values? ==> done <= o.values
    ensures o.NoValues? || o.world.cells >= w.cells
    decreases Left(w), 5, Weight(rest)
  {
    match rest
    case List(a, d) =>
      if a.Null? then EvalArguments(d, w, done)
      else (match Eval(a, w)
            case Value(v, w1) =>
              if Take(w1).error != NoError then Failed(Take(w1)) else EvalArguments(d, Take(w1), done + [v])
            case Stuck => NoValues)
    case _ => Values(done, w)
  }

  /** lispEvaluateFunction on the list of evaluated elements. */
  function Apply(vs: seq<Tree>, w: World): (o: Outcome)
    requires vs != []
    ensures o.Value? ==> o.world.cells >= w.cells
    decreases Left(w), 4
  {
    match vs[0]
    case Null => Stuck
    case Lambda(_, _) => ApplyLambda(vs[0], FromSeq(vs[1..]), w)
    case Prim(h) => ApplyPrimitive(h, FromSeq(vs[1..]), w)
    case _ => Value(FromSeq(vs), w)
  }

  /** lispPrimitiveLambda: an error, new or old, ends it with NULL. */
  function ApplyLambda(lambda: Tree, values: Tree, w: World): (o: Outcome)
    requires lambda.Lambda?
    ensures o.Value? ==> o.world.cells >= w.cells
    decreases Left(w), 2, 0
  {
    match PairUp(lambda.arguments, values, w, true)
    case Missing => Stuck
    case Unpaired(w1) => Value(Null, w1)
    case Paired(pairs, w1) =>
      if w1.error != NoError then Value(Null, w1) else EvalBody(lambda.expression, pairs, w1)
  }

  function EvalBody(body: Tree, pairs: seq<(Tree, Tree)>, w: World): (o: Outcome)
    ensures o.Value? ==> o.world.cells >= w.cells
    decreases Left(w), 1
  {
    match Replace(body, pairs, w)
    case Wild => Stuck
    case Copied(input, w1) => if w1.error != NoError then Value(Null, w1) else Eval(input, w1)
  }

  /** What lispPrimitiveCond makes of the predicate of a clause: one that is the nil cell is not evaluated again. */
  function EvalPredicate(predicateTree: Tree, w: World): (o: Outcome)
    ensures o.Value? ==> o.world.cells >= w.cells
    decreases Left(w), 1
  {
    if predicateTree.Nil? then Value(Nil, w) else Eval(predicateTree, w)
  }

  /** lispPrimitiveCond; the clauses are already evaluated once, as arguments. */
  function EvalCond(clauses: Tree, w: World): (o: Outcome)
    ensures o.Value? ==> o.world.cells >= w.cells
    decreases Left(w), 2, Weight(clauses)
  {
    match clauses
    case List(clause, rest) =>
      if !IsList(clause) || !IsList(Cdr(clause)) then Stuck
      else
        (match EvalPredicate(Car(clause), w)
         case Value(p, w1) => if p.Nil? then EvalCond(rest, w1) else Eval(Car(Cdr(clause)), w1)
         case Stuck => Stuck)
    case Nil => Stuck
    case _ => Value(Nil, w)
  }

  /** The primitive handlers of primitives.c. */
  function ApplyPrimitive(h: Primitive, args: Tree, w: World): (o: Outcome)
    ensures o.Value? ==> o.world.cells >= w.cells
    decreases Left(w), 3
  {
    if h.PCond? then EvalCond(args, w)
    else if !IsList(args) then Stuck
    else
      var first := Car(args);
      match h
      case PAtom => if first.Null? then Stuck else Value(if first.Atom? then TRUTH_TREE else Nil, w)
      case PCar => if IsList(first) then Value(Car(first), w) else Stuck
      case PCdr => if IsList(first) then Value(Cdr(first), w) else Stuck
      case PCons =>
        if !Free(w) then Value(Null, Take(w))
        else if !IsList(Cdr(args)) then Stuck
        else
          var (items, w1) := Gather([first], Elems(Car(Cdr(args))), Take(w));
          Value(FromSeq(items), w1)
      case PEqual =>
        if !first.Atom? || !IsList(Cdr(args)) then Stuck
        else Value(if Car(Cdr(args)) == first then TRUTH_TREE else Nil, w)
      case PLambda => if first.Lambda? then ApplyLambda(first, Cdr(args), w) else Stuck
      case PLabel =>
        if !first.Atom? || !IsList(Cdr(args)) then Stuck
        else Value(TRUTH_TREE, Bind(first.name, Car(Cdr(args)), w))
      case PQuote => Value(first, w)
  }

  /**
   * lispPrimitiveLabel: a fresh copy of the name, two cells for the item and one to hang it on the
   * environment.  Whatever of that fails, the bookmark moves to where the pool ends.
   */
  function Bind(name: seq<byte>, value: Tree, w: World): World {
    var w1 := TakeName(w, name);
    var w2 := Take(Take(w1));
    var w3 := Take(w2);
    var binding := if NameFits(w, name) then Binding(name, value) else Nameless(value);
    w3.(env := if Free(w2) then w3.env + [binding] else w3.env, markCells := w3.cells, markBytes := w3.bytes)
  }
}
