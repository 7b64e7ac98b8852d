/** What expressions are worth, whatever is called with them, and what messages that use `cond` are answered. */
module Conditionals {
  import opened Bytes
  import opened Trees
  import opened Semantics
  import opened Encoding
  import opened EmitLimit
  import opened Interface
  import opened DataMessages
  import opened PrimitiveLaws
  import opened Calls
  import Laws
  import RoundTrip
  import Session

  /** With these bindings, `t` evaluates to `v` and takes `n` cells, wherever there are as many. */
  ghost predicate Worth(t: Tree, v: Tree, n: nat, env: Environment) {
    forall w: World :: w.env == env && w.error == NoError && Fits(w, n) ==> Eval(t, w) == Value(v, Alloc(w, n))
  }

  lemma DataWorth(t: Tree, env: Environment)
    requires Data(t, env)
    ensures Worth(t, t, ListCells(t), env)
  {
    hide Eval, Data, ListCells;
    forall w: World | w.env == env && w.error == NoError && Fits(w, ListCells(t))
      ensures Eval(t, w) == Value(t, Alloc(w, ListCells(t)))
    {
      DataEvaluate(t, w);
    }
  }

  lemma NilWorth(env: Environment)
    ensures Worth(Null, Nil, 0, env)
  {
    hide Eval;
    forall w: World | w.env == env && w.error == NoError && Fits(w, 0)
      ensures Eval(Null, w) == Value(Nil, Alloc(w, 0))
    {
      NullIsNil(w);
      NoCells(w);
    }
  }

  /** An element, its value, and the cells its evaluation takes. */
  datatype Element = Element(tree: Tree, value: Tree, cells: nat)

  ghost predicate AllWorth(es: seq<Element>, env: Environment) {
    forall i :: 0 <= i < |es| ==> es[i].tree != Null && Worth(es[i].tree, es[i].value, es[i].cells, env)
  }

  function TreesOf(es: seq<Element>): Tree {
    if es == [] then Null else List(es[0].tree, TreesOf(es[1..]))
  }

  function ValuesOf(es: seq<Element>): Tree {
    if es == [] then Null else List(es[0].value, ValuesOf(es[1..]))
  }

  /** The cells it takes to list the values. */
  function CellsFor(es: seq<Element>): nat {
    if es == [] then 0 else es[0].cells + 1 + CellsFor(es[1..])
  }

  lemma {:induction false} ArgumentsWorth(es: seq<Element>, w: World, done: seq<Tree>)
    requires AllWorth(es, w.env) && w.error == NoError && Fits(w, CellsFor(es))
    ensures EvalArguments(TreesOf(es), w, done) == Values(done + Elems(ValuesOf(es)), Alloc(w, CellsFor(es)))
    decreases |es|
  {
    hide Eval, EvalArguments, Worth, AllWorth;
    if es == [] {
      NoArguments(w, done);
      assert done + [] == done;
    } else {
      var e := es[0];
      FirstWorth(es, w.env);
      WorthIn(e.tree, e.value, e.cells, w);
      ArgumentStep(e.tree, TreesOf(es[1..]), w, done, e.value, Alloc(w, e.cells));
      ArgumentsWorth(es[1..], Alloc(w, e.cells + 1), done + [e.value]);
      assert done + [e.value] + Elems(ValuesOf(es[1..])) == done + Elems(ValuesOf(es));
    }
  }

  lemma NoArguments(w: World, done: seq<Tree>)
    ensures EvalArguments(Null, w, done) == Values(done, Alloc(w, 0))
  {
  }

  lemma FirstWorth(es: seq<Element>, env: Environment)
    requires es != [] && AllWorth(es, env)
    ensures es[0].tree != Null && Worth(es[0].tree, es[0].value, es[0].cells, env) && AllWorth(es[1..], env)
  {
    hide Worth;
  }

  lemma WorthIn(t: Tree, v: Tree, n: nat, w: World)
    requires Worth(t, v, n, w.env) && w.error == NoError && Fits(w, n)
    ensures Eval(t, w) == Value(v, Alloc(w, n))
  {
    hide Eval;
  }

  lemma ArgumentStep(a: Tree, d: Tree, w: World, done: seq<Tree>, v: Tree, w1: World)
    requires a != Null && Eval(a, w) == Value(v, w1) && w1.error == NoError && w1.cells < EXPRESSION_LIMIT
    ensures EvalArguments(List(a, d), w, done) == EvalArguments(d, Alloc(w1, 1), done + [v])
  {
    hide Eval;
  }

  /** A list is worth what its function makes of the values of its elements. */
  lemma ListWorth(head: Element, es: seq<Element>, w: World)
    requires head.tree != Atom(Ascii("lambda")) && Worth(head.tree, head.value, head.cells, w.env)
    requires AllWorth(es, w.env) && w.error == NoError && Fits(w, head.cells + 1 + CellsFor(es))
    ensures Eval(List(head.tree, TreesOf(es)), w) ==
            Apply([head.value] + Elems(ValuesOf(es)), Alloc(w, head.cells + 1 + CellsFor(es)))
  {
    hide Eval, Worth, AllWorth, Apply, Ascii, EvalArguments, CellsFor, TreesOf, ValuesOf, Elems;
    WorthIn(head.tree, head.value, head.cells, w);
    HeadFirst(head.tree, TreesOf(es), w, head.value, Alloc(w, head.cells));
    ArgumentsWorth(es, Alloc(w, head.cells + 1), [head.value]);
  }

  lemma {:induction false} ValuesList(es: seq<Element>)
    ensures FromSeq(Elems(ValuesOf(es))) == ValuesOf(es)
  {
    if es != [] {
      ValuesList(es[1..]);
      assert Elems(ValuesOf(es))[1..] == Elems(ValuesOf(es[1..]));
    }
  }

  /** The name of a primitive. */
  ghost predicate Names(symbol: seq<byte>, h: Primitive, env: Environment) {
    Lookup(symbol, env) == Prim(h) && symbol != Ascii("lambda")
  }

  /** A call of a primitive, whatever its arguments are. */
  lemma CallWorth(symbol: seq<byte>, h: Primitive, es: seq<Element>, w: World)
    requires Names(symbol, h, w.env) && AllWorth(es, w.env) && w.error == NoError && Fits(w, 1 + CellsFor(es))
    ensures Eval(Call(symbol, TreesOf(es)), w) == ApplyPrimitive(h, ValuesOf(es), Alloc(w, 1 + CellsFor(es)))
  {
    hide Eval, Worth, ApplyPrimitive, Ascii, EvalArguments, Lookup, AllWorth, CellsFor;
    NameWorth(symbol, h, w.env);
    ListWorth(Element(Atom(symbol), Prim(h), 0), es, w);
    var vs := [Prim(h)] + Elems(ValuesOf(es));
    assert vs[1..] == Elems(ValuesOf(es));
    ValuesList(es);
  }

  lemma NameWorth(symbol: seq<byte>, h: Primitive, env: Environment)
    requires Lookup(symbol, env) == Prim(h)
    ensures Worth(Atom(symbol), Prim(h), 0, env)
  {
    hide Eval, Lookup;
    forall w: World | w.env == env && w.error == NoError && Fits(w, 0)
      ensures Eval(Atom(symbol), w) == Value(Prim(h), Alloc(w, 0))
    {
      EvalName(symbol, h, w);
      NoCells(w);
    }
  }

  // ---------------------------------------------------------------- cond

  /** (test result), with the values of both, and the cells their evaluation takes. */
  datatype Branch = Branch(test: Element, result: Element)

  ghost predicate BranchWorth(b: Branch, env: Environment) {
    && b.test.tree != Atom(Ascii("lambda")) && (b.test.value.Nil? || b.test.value.Atom? || b.test.value.List?)
    && b.result.tree != Null
    && Worth(b.test.tree, b.test.value, b.test.cells, env) && Worth(b.result.tree, b.result.value, b.result.cells, env)
  }

  function Clause(test: Tree, result: Tree): Tree {
    List(test, List(result, Null))
  }

  /** A clause as an argument of `cond`. */
  function ClauseOf(b: Branch): Element {
    Element(Clause(b.test.tree, b.result.tree), Clause(b.test.value, b.result.value), b.test.cells + b.result.cells + 2)
  }

  lemma ClauseWorth(b: Branch, env: Environment)
    requires BranchWorth(b, env)
    ensures Worth(ClauseOf(b).tree, ClauseOf(b).value, ClauseOf(b).cells, env)
  {
    hide Eval, Worth, Ascii, EvalArguments;
    var es := [b.result];
    assert es[1..] == [];
    forall w: World | w.env == env && w.error == NoError && Fits(w, ClauseOf(b).cells)
      ensures Eval(ClauseOf(b).tree, w) == Value(ClauseOf(b).value, Alloc(w, ClauseOf(b).cells))
    {
      ListWorth(b.test, es, w);
      assert TreesOf(es) == List(b.result.tree, Null) && ValuesOf(es) == List(b.result.value, Null);
      var vs := [b.test.value] + Elems(ValuesOf(es));
      ApplyPlain(vs, Alloc(w, ClauseOf(b).cells));
      assert vs == [b.test.value, b.result.value];
      TwoValues(vs);
    }
    WorthFrom(ClauseOf(b).tree, ClauseOf(b).value, ClauseOf(b).cells, env);
  }

  lemma WorthFrom(t: Tree, v: Tree, n: nat, env: Environment)
    requires forall w: World :: w.env == env && w.error == NoError && Fits(w, n) ==> Eval(t, w) == Value(v, Alloc(w, n))
    ensures Worth(t, v, n, env)
  {
  }

  lemma TwoValues(vs: seq<Tree>)
    requires |vs| == 2
    ensures FromSeq(vs) == List(vs[0], List(vs[1], Null))
  {
    assert FromSeq(vs[1..]) == List(vs[1], Null);
  }

  lemma ApplyPlain(vs: seq<Tree>, w: World)
    requires vs != [] && (vs[0].Nil? || vs[0].Atom? || vs[0].List?)
    ensures Apply(vs, w) == Value(FromSeq(vs), w)
  {
  }

  function Clauses(bs: seq<Branch>): seq<Element> {
    seq(|bs|, i requires 0 <= i < |bs| => ClauseOf(bs[i]))
  }

  /** (cond (test result) ...) */
  function Cond(bs: seq<Branch>): Tree {
    Call(Ascii("cond"), TreesOf(Clauses(bs)))
  }

  /** The first branch whose test is not worth nil. */
  ghost predicate Chosen(bs: seq<Branch>, i: nat) {
    && i <= |bs| && (forall j :: 0 <= j < i ==> bs[j].test.value == Nil)
    && (i < |bs| ==> bs[i].test.value != Nil)
  }

  lemma ClausesWorth(bs: seq<Branch>, env: Environment)
    requires forall i :: 0 <= i < |bs| ==> BranchWorth(bs[i], env)
    ensures AllWorth(Clauses(bs), env)
  {
    hide Worth, Ascii;
    forall i | 0 <= i < |bs|
      ensures Worth(Clauses(bs)[i].tree, Clauses(bs)[i].value, Clauses(bs)[i].cells, env)
    {
      ClauseWorth(bs[i], env);
    }
  }

  /** The values of the clauses, of which the first `i` end in nil. */
  function Given(bs: seq<Branch>, i: nat): seq<Tree>
    requires i <= |bs|
  {
    seq(i, j requires 0 <= j < i => Clause(bs[j].test.value, bs[j].result.value))
  }

  lemma {:induction false} ValuesBefore(bs: seq<Branch>, i: nat)
    requires i <= |bs|
    ensures ValuesOf(Clauses(bs)) == Laws.Before(Given(bs, i), ValuesOf(Clauses(bs[i..])))
    decreases i
  {
    if i == 0 {
      assert bs[0..] == bs;
    } else {
      var tail := bs[1..];
      ValuesBefore(tail, i - 1);
      assert Clauses(bs)[1..] == Clauses(tail);
      assert Given(bs, i)[1..] == Given(tail, i - 1);
      assert tail[i - 1..] == bs[i..];
    }
  }

  /** Tests worth nil are passed over without a trace. */
  lemma NilPassed(bs: seq<Branch>, i: nat, w: World)
    requires i <= |bs| && forall j :: 0 <= j < i ==> bs[j].test.value == Nil
    ensures AllNil(Given(bs, i), seq(i + 1, j requires 0 <= j < i + 1 => w))
  {
    hide Eval;
  }

  /**
   * `cond`, its clauses evaluated: the result of the first branch whose test is not worth nil, evaluated
   * once more, as its test is.
   */
  lemma CondApplied(bs: seq<Branch>, i: nat, again: Element, result: Element, w: World)
    requires Chosen(bs, i) && w.error == NoError
    requires i < |bs| ==>
      && again.tree == bs[i].test.value && Worth(again.tree, again.value, again.cells, w.env) && again.value != Nil
      && result.tree == bs[i].result.value && Worth(result.tree, result.value, result.cells, w.env)
      && Fits(w, again.cells + result.cells)
    ensures ApplyPrimitive(PCond, ValuesOf(Clauses(bs)), w) ==
            if i < |bs| then Value(result.value, Alloc(w, again.cells + result.cells)) else Value(Nil, w)
  {
    hide Eval, Worth, ApplyPrimitive, AllNil;
    var front := Given(bs, i);
    var worlds := seq(i + 1, j requires 0 <= j < i + 1 => w);
    ValuesBefore(bs, i);
    NilPassed(bs, i, w);
    if i < |bs| {
      var clause := Clause(bs[i].test.value, bs[i].result.value);
      var rest := ValuesOf(Clauses(bs[i..])[1..]);
      assert ValuesOf(Clauses(bs[i..])) == List(clause, rest);
      WorthIn(again.tree, again.value, again.cells, w);
      CondTakes(front, worlds, clause, again.value, Alloc(w, again.cells), rest);
      WorthIn(result.tree, result.value, result.cells, Alloc(w, again.cells));
    } else {
      assert Clauses(bs[i..]) == [];
      Laws.BeforeNull(front);
      CondEnds(front, worlds);
    }
  }

  /** What a `cond` is worth. */
  lemma CondWorth(bs: seq<Branch>, i: nat, again: Element, result: Element, env: Environment)
    requires Names(Ascii("cond"), PCond, env) && Chosen(bs, i)
    requires forall j :: 0 <= j < |bs| ==> BranchWorth(bs[j], env)
    requires i < |bs| ==>
      && again.tree == bs[i].test.value && Worth(again.tree, again.value, again.cells, env) && again.value != Nil
      && result.tree == bs[i].result.value && Worth(result.tree, result.value, result.cells, env)
    ensures if i < |bs| then Worth(Cond(bs), result.value, 1 + CellsFor(Clauses(bs)) + again.cells + result.cells, env)
            else Worth(Cond(bs), Nil, 1 + CellsFor(Clauses(bs)), env)
  {
    hide Eval, Worth, ApplyPrimitive, Ascii, Chosen, CellsFor, Names, AllWorth, BranchWorth;
    ClausesWorth(bs, env);
    var more := if i < |bs| then again.cells + result.cells else 0;
    var v := if i < |bs| then result.value else Nil;
    var n := 1 + CellsFor(Clauses(bs));
    forall w: World | w.env == env && w.error == NoError && Fits(w, n + more)
      ensures Eval(Cond(bs), w) == Value(v, Alloc(w, n + more))
    {
      CallWorth(Ascii("cond"), PCond, Clauses(bs), w);
      CondApplied(bs, i, again, result, Alloc(w, n));
    }
    WorthFrom(Cond(bs), v, n + more, env);
  }

  // ---------------------------------------------------------------- messages

  /** A message that is read as an expression of known worth is answered with its value. */
  lemma WorthAnswered(w: World, t: Tree, tail: seq<byte>, u: Tree, v: Tree, n: nat)
    requires Session.Resting(w) && t != Null && tail != [] && ShortNames(t) && u == Norm(Plain(t))
    requires Readable(w, u) && Worth(u, v, n, w.env) && Fits(Begun(w, u), n)
    ensures Gives(w, Encode(t) + tail, v)
    ensures v != Null && Writable(v) ==> AnsweredWith(w, Encode(t) + tail, v)
  {
    hide Eval, Worth, Encode, Norm, Plain, ShortNames, Refused, Writable, AnsweredWith, Encoding.Parse,
         CellsOf, BytesOf;
    var s := ParseState(0, NoError, w.cells, w.bytes);
    RoundTrip.ParseEncode(Encode(t) + tail, s, t, tail);
    WorthIn(u, v, n, Begun(w, u));
    if v != Null && Writable(v) {
      GivenIsAnswered(w, Encode(t) + tail, v);
    }
  }

  /** A branch of data, or with a test that is written as (). */
  predicate DataBranch(test: Tree, result: Tree, env: Environment) {
    && (test.Nil? || (Data(test, env) && ShortNames(test) && test != Atom(Ascii("lambda"))))
    && Data(result, env) && ShortNames(result)
  }

  function Itself(t: Tree): Element {
    Element(t, t, ListCells(t))
  }

  /** () is read as NULL, which is worth nil. */
  function TestOf(test: Tree): Element {
    if test.Nil? then Element(Null, Nil, 0) else Itself(test)
  }

  function BranchOf(test: Tree, result: Tree): Branch {
    Branch(TestOf(test), Itself(result))
  }

  function Branches(cs: seq<(Tree, Tree)>): seq<Branch> {
    seq(|cs|, i requires 0 <= i < |cs| => BranchOf(cs[i].0, cs[i].1))
  }

  function Written(cs: seq<(Tree, Tree)>): Tree {
    if cs == [] then Null else List(Clause(cs[0].0, cs[0].1), Written(cs[1..]))
  }

  lemma DataBranchWorth(test: Tree, result: Tree, env: Environment)
    requires DataBranch(test, result, env)
    ensures BranchWorth(BranchOf(test, result), env)
    ensures RoundTrip.Solid(result) && (test.Nil? || RoundTrip.Solid(test))
  {
    DataIsSolid(test, env);
    DataIsSolid(result, env);
    hide Eval, Worth, ListCells, Ascii;
    DataWorth(result, env);
    NilWorth(env);
    if !test.Nil? {
      DataWorth(test, env);
    }
  }

  /** A clause is read as it stands, but for a test (). */
  lemma ClauseRead(test: Tree, result: Tree, env: Environment)
    requires DataBranch(test, result, env)
    ensures var c := Clause(test, result);
            && Plain(c).List? && NormRest(Plain(c)) == ClauseOf(BranchOf(test, result)).tree && ShortNames(c)
            && RoundTrip.Solid(result)
  {
    DataBranchWorth(test, result, env);
    RoundTrip.SameAfterRoundTrip(result);
    hide Worth, ListCells, Ascii, Eval, Plain, NormRest;
    PlainClause(test, result);
    if !test.Nil? {
      RoundTrip.SameAfterRoundTrip(test);
    }
  }

  lemma PlainClause(test: Tree, result: Tree)
    ensures var c := Clause(test, result);
      && Plain(c).List? && (ShortNames(c) <==> ShortNames(test) && ShortNames(result))
      && (test != Null && result != Null ==> NormRest(Plain(c)) == Clause(Norm(Plain(test)), Norm(Plain(result))))
    ensures Norm(Plain(Nil)) == Null
  {
    var rest := List(result, Null);
    assert Plain(rest) == List(Plain(result), Null) && (ShortNames(rest) <==> ShortNames(result));
    assert Plain(Clause(test, result)) == List(Plain(test), Plain(rest));
    if test != Null && result != Null {
      RoundTrip.PlainShape(test);
      RoundTrip.PlainShape(result);
      assert NormRest(Plain(rest)) == List(Norm(Plain(result)), Null);
    }
  }

  lemma {:induction false} WrittenRead(cs: seq<(Tree, Tree)>, env: Environment)
    requires forall i :: 0 <= i < |cs| ==> DataBranch(cs[i].0, cs[i].1, env)
    ensures cs != [] ==> Plain(Written(cs)).List?
    ensures NormRest(Plain(Written(cs))) == TreesOf(Clauses(Branches(cs))) && ShortNames(Written(cs))
    ensures forall i :: 0 <= i < |cs| ==> CellsOf(cs[i].1) <= CellsOf(TreesOf(Clauses(Branches(cs))))
    ensures forall i :: 0 <= i < |cs| ==> BytesOf(cs[i].1) <= BytesOf(TreesOf(Clauses(Branches(cs))))
  {
    hide DataBranch, ClauseOf, Clause, BranchOf;
    if cs != [] {
      var bs := Clauses(Branches(cs));
      WrittenRead(cs[1..], env);
      ClauseRead(cs[0].0, cs[0].1, env);
      ClauseSize(cs[0].0, cs[0].1);
      assert bs[1..] == Clauses(Branches(cs[1..]));
      forall i | 0 <= i < |cs|
        ensures CellsOf(cs[i].1) <= CellsOf(TreesOf(bs)) && BytesOf(cs[i].1) <= BytesOf(TreesOf(bs))
      {
        assert i > 0 ==> cs[i] == cs[1..][i - 1];
      }
    }
  }

  lemma ClauseSize(test: Tree, result: Tree)
    ensures CellsOf(result) <= CellsOf(ClauseOf(BranchOf(test, result)).tree)
    ensures BytesOf(result) <= BytesOf(ClauseOf(BranchOf(test, result)).tree)
    ensures Clause(test, result).List?
  {
  }

  /** The message (cond (test result) ...). */
  function CondOf(cs: seq<(Tree, Tree)>): Tree {
    Call(Ascii("cond"), Written(cs))
  }

  lemma CondRead(cs: seq<(Tree, Tree)>, env: Environment)
    requires forall i :: 0 <= i < |cs| ==> DataBranch(cs[i].0, cs[i].1, env)
    ensures Norm(Plain(CondOf(cs))) == Cond(Branches(cs)) && ShortNames(CondOf(cs))
    ensures forall i :: 0 <= i < |cs| ==> CellsOf(cs[i].1) <= CellsOf(Cond(Branches(cs)))
    ensures forall i :: 0 <= i < |cs| ==> BytesOf(cs[i].1) <= BytesOf(Cond(Branches(cs)))
  {
    hide DataBranch, ClauseOf, Clause, BranchOf, Clauses, Branches;
    CondName();
    WrittenRead(cs, env);
    hide Ascii;
  }

  lemma CondName()
    ensures |Ascii("cond")| == 4 && Ascii("cond") != Ascii("lambda")
  {
    assert |Ascii("lambda")| == 6;
  }

  /** All that a message with these branches needs: what names it uses, and room for it. */
  ghost predicate CanChoose(w: World, cs: seq<(Tree, Tree)>, i: nat) {
    && Session.Resting(w) && Lookup(Ascii("cond"), w.env) == Prim(PCond)
    && (forall j :: 0 <= j < |cs| ==> DataBranch(cs[j].0, cs[j].1, w.env))
    && i <= |cs| && (forall j :: 0 <= j < i ==> cs[j].0.Nil?) && (i < |cs| ==> !cs[i].0.Nil?)
    && Readable(w, Cond(Branches(cs)))
    && Fits(Begun(w, Cond(Branches(cs))),
            1 + CellsFor(Clauses(Branches(cs))) + (if i < |cs| then ListCells(cs[i].0) + ListCells(cs[i].1) else 0))
  }

  /**
   * (cond (test result) ...), the clauses being data: the answer is the result of the first clause whose
   * test is not (), and () if there is none.
   */
  lemma CondMessage(w: World, cs: seq<(Tree, Tree)>, i: nat, tail: seq<byte>)
    requires CanChoose(w, cs, i) && tail != []
    ensures if i < |cs| then AnsweredWith(w, Encode(CondOf(cs)) + tail, cs[i].1)
            else AnswersTest(w, Encode(CondOf(cs)) + tail, false)
  {
    var t, u := CondOf(cs), Cond(Branches(cs));
    CondRead(cs, w.env);
    CondDataWorth(w, cs, i);
    assert t != Null;
    hide Worth, CellsFor, Ascii, Norm, Plain, Encode, Writable, AnsweredWith, AnswersTest, Gives, ListCells, CondOf,
         Cond, Clauses, Eval, Branches, DataBranch, Lookup;
    if i < |cs| {
      var n := 1 + CellsFor(Clauses(Branches(cs))) + (ListCells(cs[i].0) + ListCells(cs[i].1));
      WorthAnswered(w, t, tail, u, cs[i].1, n);
      DataBranchWorth(cs[i].0, cs[i].1, w.env);
      ResultWritable(cs[i].0, cs[i].1, w.env);
    } else {
      WorthAnswered(w, t, tail, u, Nil, 1 + CellsFor(Clauses(Branches(cs))));
      TestAnswered(w, Encode(t) + tail, false);
    }
  }

  lemma ResultWritable(test: Tree, result: Tree, env: Environment)
    requires DataBranch(test, result, env) && CellsOf(result) <= 160 && BytesOf(result) <= 256
    ensures result != Null && Writable(result)
  {
    hide Writable;
    DataBranchWorth(test, result, env);
    SolidWritable(result);
  }

  lemma CondDataWorth(w: World, cs: seq<(Tree, Tree)>, i: nat)
    requires CanChoose(w, cs, i)
    ensures var u, n := Cond(Branches(cs)), 1 + CellsFor(Clauses(Branches(cs)));
            if i < |cs| then Worth(u, cs[i].1, n + (ListCells(cs[i].0) + ListCells(cs[i].1)), w.env)
            else Worth(u, Nil, n, w.env)
  {
    hide *;
    Choosable(w, cs, i);
    var again := if i < |cs| then Element(cs[i].0, cs[i].0, ListCells(cs[i].0)) else Element(Nil, Nil, 0);
    var result := if i < |cs| then Element(cs[i].1, cs[i].1, ListCells(cs[i].1)) else again;
    CondWorth(Branches(cs), i, again, result, w.env);
  }

  lemma Choosable(w: World, cs: seq<(Tree, Tree)>, i: nat)
    requires CanChoose(w, cs, i)
    ensures Names(Ascii("cond"), PCond, w.env) && |Branches(cs)| == |cs| && Chosen(Branches(cs), i) && i <= |cs|
    ensures forall j :: 0 <= j < |cs| ==> BranchWorth(Branches(cs)[j], w.env)
    ensures i < |cs| ==>
      && Branches(cs)[i].test.value == cs[i].0 != Nil && Worth(cs[i].0, cs[i].0, ListCells(cs[i].0), w.env)
      && Branches(cs)[i].result.value == cs[i].1 && Worth(cs[i].1, cs[i].1, ListCells(cs[i].1), w.env)
  {
    hide Worth, CellsFor, Ascii, ListCells, Cond, Clauses, Eval, BranchWorth, Branches, Chosen, Lookup, DataBranch;
    CondName();
    AllBranches(cs, i, w.env);
  }

  lemma AllBranches(cs: seq<(Tree, Tree)>, i: nat, env: Environment)
    requires forall j :: 0 <= j < |cs| ==> DataBranch(cs[j].0, cs[j].1, env)
    requires i <= |cs| && (forall j :: 0 <= j < i ==> cs[j].0.Nil?) && (i < |cs| ==> !cs[i].0.Nil?)
    ensures |Branches(cs)| == |cs| && Chosen(Branches(cs), i)
    ensures forall j :: 0 <= j < |cs| ==> BranchWorth(Branches(cs)[j], env)
    ensures i < |cs| ==>
      && Branches(cs)[i].test.value == cs[i].0 && Worth(cs[i].0, cs[i].0, ListCells(cs[i].0), env)
      && Branches(cs)[i].result.value == cs[i].1 && Worth(cs[i].1, cs[i].1, ListCells(cs[i].1), env)
  {
    hide Worth, DataBranch, BranchWorth, ListCells;
    forall j | 0 <= j < |cs| ensures BranchWorth(Branches(cs)[j], env) {
      BranchParts(cs[j].0, cs[j].1, env);
    }
    if i < |cs| {
      BranchParts(cs[i].0, cs[i].1, env);
    }
  }

  lemma BranchParts(test: Tree, result: Tree, env: Environment)
    requires DataBranch(test, result, env)
    ensures BranchWorth(BranchOf(test, result), env)
    ensures !test.Nil? ==> Worth(test, test, ListCells(test), env)
    ensures Worth(result, result, ListCells(result), env)
  {
    DataBranchWorth(test, result, env);
    hide Worth, Ascii, ListCells;
  }
}
