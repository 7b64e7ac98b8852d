/** What a server answers to calls of its primitives with data, to the byte. */
module Calls {
  import opened Bytes
  import opened Trees
  import opened Semantics
  import opened Encoding
  import opened EmitLimit
  import opened Interface
  import opened DataMessages
  import opened PrimitiveLaws
  import Laws
  import RoundTrip
  import Session
  import Startup

  // ---------------------------------------------------------------- answers

  /** The message is answered with `v`, or with the limit error if `v` is too long, and leaves nothing behind. */
  predicate AnsweredWith(w: World, message: seq<byte>, v: Tree) {
    && Served(w, message) && Next(w, message) == w
    && if Refused(v, 256) then Verdict(w, message) == LimitEmit && Reply(w, message) == ErrorMessage(LimitEmit)
       else Verdict(w, message) == NoError && Reply(w, message) == Line(Encode(v))
  }

  /** Evaluating the message gives `v`, without an error and without moving the bookmark. */
  predicate Gives(w: World, message: seq<byte>, v: Tree) {
    && Read(w, message).1.error == NoError
    && var o := Run(w, message);
       && o.Value? && o.value == v && o.world.error == NoError
       && o.world.env == w.env && o.world.markCells == w.markCells && o.world.markBytes == w.markBytes
  }

  lemma GivenIsAnswered(w: World, message: seq<byte>, v: Tree)
    requires Session.Resting(w) && Gives(w, message, v) && v != Null && Writable(v)
    ensures AnsweredWith(w, message, v)
  {
    hide Read, Run, Writable, Refused, Encode, ErrorMessage, Line;
  }

  /** What fits into the pools fits into the writer buffer. */
  lemma SolidWritable(v: Tree)
    requires RoundTrip.Solid(v) && ShortNames(v) && CellsOf(v) <= 160 && BytesOf(v) <= 256
    ensures v != Null && Writable(v)
  {
    CodeBound(v);
  }

  // ---------------------------------------------------------------- calls

  /** (symbol arguments ...) */
  function Call(symbol: seq<byte>, args: Tree): Tree {
    List(Atom(symbol), args)
  }

  /** The call can be read, its arguments are data and can be listed, and `more` cells are left then. */
  predicate Callable(w: World, symbol: seq<byte>, h: Primitive, args: Tree, more: nat) {
    && Session.Resting(w) && Lookup(symbol, w.env) == Prim(h) && symbol != Ascii("lambda") && |symbol| <= 64
    && DataRest(args, w.env) && ShortNames(args)
    && Readable(w, Call(symbol, args)) && Fits(Begun(w, Call(symbol, args)), 1 + ListCells(args) + more)
  }

  /** The world in which the primitive is applied. */
  function AppliedTo(w: World, symbol: seq<byte>, args: Tree): World {
    Alloc(Begun(w, Call(symbol, args)), 1 + ListCells(args))
  }

  lemma CallRun(w: World, symbol: seq<byte>, h: Primitive, args: Tree, more: nat, tail: seq<byte>)
    requires Callable(w, symbol, h, args, more) && tail != []
    ensures var message := Encode(Call(symbol, args)) + tail;
            && Read(w, message).1.error == NoError
            && Run(w, message) == ApplyPrimitive(h, args, AppliedTo(w, symbol, args))
  {
    hide Eval, Lookup, DataRest, Encoding.Parse, ApplyPrimitive, ListCells, Ascii, Encode;
    var t := Call(symbol, args);
    RestSolid(args, w.env);
    CallSolid(symbol, args);
    ReadData(w, t, tail);
    PrimitiveCall(symbol, h, args, Begun(w, t));
  }

  lemma RestSolid(args: Tree, env: Environment)
    requires DataRest(args, env)
    ensures args.Null? || (args.List? && RoundTrip.Solid(args))
  {
    DataIsSolid(args, env);
  }

  /** A message whose evaluation ends with the pool full is answered with the limit error. */
  lemma FullIsAnswered(w: World, message: seq<byte>)
    requires Session.Resting(w) && Read(w, message).1.error == NoError && Run(w, message).Value?
    requires exists w1: World :: Run(w, message).world == Full(w1)
                && w1.env == w.env && w1.markCells == w.markCells && w1.markBytes == w.markBytes
    ensures Served(w, message) && Next(w, message) == w
    ensures Verdict(w, message) == LimitExpressions && Reply(w, message) == ErrorMessage(LimitExpressions)
  {
    hide Read, Run, ErrorMessage;
  }

  /** A call that can be read, but whose arguments cannot be listed, is answered with the limit error. */
  lemma CallTooBig(w: World, symbol: seq<byte>, h: Primitive, args: Tree, tail: seq<byte>)
    requires Session.Resting(w) && Lookup(symbol, w.env) == Prim(h) && symbol != Ascii("lambda") && |symbol| <= 64
    requires DataRest(args, w.env) && ShortNames(args) && tail != []
    requires Readable(w, Call(symbol, args)) && !Fits(Begun(w, Call(symbol, args)), 1 + ListCells(args))
    ensures var message := Encode(Call(symbol, args)) + tail;
            && Served(w, message) && Next(w, message) == w
            && Verdict(w, message) == LimitExpressions && Reply(w, message) == ErrorMessage(LimitExpressions)
  {
    hide *;
    var t, message := Call(symbol, args), Encode(Call(symbol, args)) + tail;
    RestSolid(args, w.env);
    CallSolid(symbol, args);
    CallIsList(symbol, args);
    ReadData(w, t, tail);
    BegunFrom(w, t);
    PrimitiveCall(symbol, h, args, Begun(w, t));
    RunOf(w, message, t, Begun(w, t));
    FullIsAnswered(w, message);
  }

  lemma CallIsList(symbol: seq<byte>, args: Tree)
    ensures Call(symbol, args).List? && Call(symbol, args) == List(Atom(symbol), args)
  {
  }

  lemma BegunFrom(w: World, t: Tree)
    requires Session.Resting(w) && Readable(w, t)
    ensures var w1 := Begun(w, t);
            && w1.cells <= EXPRESSION_LIMIT && w1.error == NoError && w1.env == w.env
            && w1.markCells == w.markCells && w1.markBytes == w.markBytes
  {
  }

  lemma RunOf(w: World, message: seq<byte>, t: Tree, w1: World)
    requires Read(w, message).0 == t && Reading(w, Read(w, message).1) == w1
    ensures Run(w, message) == Eval(t, w1)
  {
  }

  lemma CallSolid(symbol: seq<byte>, args: Tree)
    requires |symbol| <= 64 && ShortNames(args) && (args.Null? || (args.List? && RoundTrip.Solid(args)))
    ensures RoundTrip.Solid(Call(symbol, args)) && ShortNames(Call(symbol, args))
    ensures CellsOf(Call(symbol, args)) == CellsOf(args) + 2 && BytesOf(Call(symbol, args)) == |symbol| + BytesOf(args)
  {
  }

  /** If the primitive gives `v`, so does the message. */
  lemma CallGives(w: World, symbol: seq<byte>, h: Primitive, args: Tree, more: nat, tail: seq<byte>, v: Tree, n: nat)
    requires Callable(w, symbol, h, args, more) && tail != []
    requires ApplyPrimitive(h, args, AppliedTo(w, symbol, args)) == Value(v, Alloc(AppliedTo(w, symbol, args), n))
    ensures Gives(w, Encode(Call(symbol, args)) + tail, v)
  {
    CallRun(w, symbol, h, args, more, tail);
    hide Eval, Lookup, DataRest, Encoding.Parse, ApplyPrimitive, ListCells, Encode, Read, Run, ShortNames;
  }

  function One(x: Tree): Tree {
    List(x, Null)
  }

  function Two(x: Tree, y: Tree): Tree {
    List(x, List(y, Null))
  }

  /** The parts of the arguments of a call that fits can be written. */
  lemma ArgumentFits(w: World, symbol: seq<byte>, h: Primitive, args: Tree, more: nat, v: Tree)
    requires Callable(w, symbol, h, args, more) && RoundTrip.Solid(v) && ShortNames(v)
    requires CellsOf(v) <= CellsOf(args) + 2 && BytesOf(v) <= BytesOf(args)
    ensures v != Null && Writable(v)
  {
    RestSolid(args, w.env);
    CallSolid(symbol, args);
    SolidWritable(v);
  }

  lemma OneParts(x: Tree, env: Environment)
    ensures DataRest(One(x), env) <==> Data(x, env)
    ensures ShortNames(One(x)) <==> ShortNames(x)
    ensures CellsOf(One(x)) == CellsOf(x) + 1 && BytesOf(One(x)) == BytesOf(x)
    ensures Data(x, env) ==> RoundTrip.Solid(x)
  {
    DataIsSolid(x, env);
  }

  lemma TwoParts(x: Tree, y: Tree, env: Environment)
    ensures DataRest(Two(x, y), env) <==> Data(x, env) && Data(y, env)
    ensures ShortNames(Two(x, y)) <==> ShortNames(x) && ShortNames(y)
    ensures CellsOf(Two(x, y)) == CellsOf(x) + CellsOf(y) + 2 && BytesOf(Two(x, y)) == BytesOf(x) + BytesOf(y)
    ensures Data(x, env) ==> RoundTrip.Solid(x)
    ensures Data(y, env) ==> RoundTrip.Solid(y)
  {
    OneParts(y, env);
    DataIsSolid(x, env);
  }

  /** (car list) is answered with the first element. */
  lemma CarCall(w: World, list: Tree, tail: seq<byte>)
    requires Callable(w, Ascii("car"), PCar, One(list), 0) && list.List? && tail != []
    ensures AnsweredWith(w, Encode(Call(Ascii("car"), One(list))) + tail, list.car)
  {
    OneParts(list, w.env);
    ListParts(list, w.env);
    hide Callable, Gives, Eval, Encode, ApplyPrimitive, AppliedTo, Writable, AnsweredWith, Data, ShortNames, CellsOf,
         BytesOf, RoundTrip.Solid, Ascii, Session.Resting;
    CarAndCdr(list, Null, AppliedTo(w, Ascii("car"), One(list)));
    NoCells(AppliedTo(w, Ascii("car"), One(list)));
    CallGives(w, Ascii("car"), PCar, One(list), 0, tail, list.car, 0);
    ArgumentFits(w, Ascii("car"), PCar, One(list), 0, list.car);
    CallableRests(w, Ascii("car"), PCar, One(list), 0);
    GivenIsAnswered(w, Encode(Call(Ascii("car"), One(list))) + tail, list.car);
  }

  /** (cdr list) is answered with the other elements, if there are any. */
  lemma CdrCall(w: World, list: Tree, tail: seq<byte>)
    requires Callable(w, Ascii("cdr"), PCdr, One(list), 0) && list.List? && list.cdr != Null && tail != []
    ensures AnsweredWith(w, Encode(Call(Ascii("cdr"), One(list))) + tail, list.cdr)
  {
    OneParts(list, w.env);
    ListParts(list, w.env);
    hide Callable, Gives, Eval, Encode, ApplyPrimitive, AppliedTo, Writable, AnsweredWith, Data, ShortNames, CellsOf,
         BytesOf, RoundTrip.Solid, Ascii, Session.Resting;
    CarAndCdr(list, Null, AppliedTo(w, Ascii("cdr"), One(list)));
    NoCells(AppliedTo(w, Ascii("cdr"), One(list)));
    CallGives(w, Ascii("cdr"), PCdr, One(list), 0, tail, list.cdr, 0);
    ArgumentFits(w, Ascii("cdr"), PCdr, One(list), 0, list.cdr);
    CallableRests(w, Ascii("cdr"), PCdr, One(list), 0);
    GivenIsAnswered(w, Encode(Call(Ascii("cdr"), One(list))) + tail, list.cdr);
  }

  lemma CallableRests(w: World, symbol: seq<byte>, h: Primitive, args: Tree, more: nat)
    requires Callable(w, symbol, h, args, more)
    ensures Session.Resting(w) && AppliedTo(w, symbol, args).cells + more <= EXPRESSION_LIMIT
    ensures DataRest(args, w.env) && ShortNames(args)
  {
  }

  lemma NoCells(w: World)
    ensures Alloc(w, 0) == w
  {
  }

  /** Both parts of a list of data are solid and no larger than it. */
  lemma ListParts(list: Tree, env: Environment)
    requires list.List?
    ensures Data(list, env) ==> RoundTrip.Solid(list.car) && (list.cdr.Null? || RoundTrip.Solid(list.cdr))
    ensures ShortNames(list) ==> ShortNames(list.car) && ShortNames(list.cdr)
    ensures CellsOf(list.car) < CellsOf(list) && CellsOf(list.cdr) < CellsOf(list)
    ensures BytesOf(list.car) <= BytesOf(list) && BytesOf(list.cdr) <= BytesOf(list)
  {
    DataIsSolid(list.car, env);
    DataIsSolid(list.cdr, env);
  }

  /** (quote x) is answered with x, since x is data. */
  lemma QuoteCall(w: World, x: Tree, tail: seq<byte>)
    requires Callable(w, Ascii("quote"), PQuote, One(x), 0) && tail != []
    ensures AnsweredWith(w, Encode(Call(Ascii("quote"), One(x))) + tail, x)
  {
    OneParts(x, w.env);
    QuoteOf(x, AppliedTo(w, Ascii("quote"), One(x)));
    hide Callable, Gives, Eval, Encode, ApplyPrimitive, AppliedTo, Writable, AnsweredWith, Data, ShortNames, CellsOf,
         BytesOf, RoundTrip.Solid, Ascii, Session.Resting;
    CallableRests(w, Ascii("quote"), PQuote, One(x), 0);
    CallGives(w, Ascii("quote"), PQuote, One(x), 0, tail, x, 0);
    ArgumentFits(w, Ascii("quote"), PQuote, One(x), 0, x);
    GivenIsAnswered(w, Encode(Call(Ascii("quote"), One(x))) + tail, x);
  }

  lemma QuoteOf(x: Tree, w: World)
    ensures ApplyPrimitive(PQuote, One(x), w) == Value(x, Alloc(w, 0))
  {
  }

  /** (cons x list) is answered with the list that begins with x. */
  lemma ConsCall(w: World, x: Tree, list: Tree, tail: seq<byte>)
    requires Callable(w, Ascii("cons"), PCons, Two(x, list), 1 + |Elems(list)|) && list.List? && tail != []
    ensures AnsweredWith(w, Encode(Call(Ascii("cons"), Two(x, list))) + tail, List(x, list))
  {
    var args, n := Two(x, list), 1 + |Elems(list)|;
    CallableRests(w, Ascii("cons"), PCons, args, n);
    TwoParts(x, list, w.env);
    ProperData(list, w.env);
    ConsSolid(x, list);
    hide Callable, Gives, Eval, Encode, ApplyPrimitive, AppliedTo, Writable, AnsweredWith, Data, ShortNames, CellsOf,
         BytesOf, RoundTrip.Solid, Ascii, Session.Resting, Elems, Proper;
    ConsLaws(x, list, AppliedTo(w, Ascii("cons"), args));
    ConsValue(x, list, AppliedTo(w, Ascii("cons"), args));
    CallGives(w, Ascii("cons"), PCons, args, n, tail, List(x, list), n);
    ArgumentFits(w, Ascii("cons"), PCons, args, n, List(x, list));
    GivenIsAnswered(w, Encode(Call(Ascii("cons"), args)) + tail, List(x, list));
  }

  lemma ConsValue(x: Tree, list: Tree, w: World)
    requires Proper(list) && Fits(w, 1 + |Elems(list)|)
    ensures ApplyPrimitive(PCons, Two(x, list), w) == Value(List(x, list), Alloc(w, 1 + |Elems(list)|))
  {
    ProperItems(list);
    ConsOfItems(x, Elems(list), w);
  }

  lemma {:induction false} ProperData(list: Tree, env: Environment)
    ensures DataRest(list, env) ==> Proper(list)
    ensures Data(list, env) && list.List? ==> Proper(list)
  {
    if list.List? {
      ProperData(list.cdr, env);
    }
  }

  lemma ConsSolid(x: Tree, list: Tree)
    requires RoundTrip.Solid(x) && RoundTrip.Solid(list) && list.List?
    ensures RoundTrip.Solid(List(x, list)) && (ShortNames(List(x, list)) <==> ShortNames(x) && ShortNames(list))
    ensures CellsOf(List(x, list)) == CellsOf(x) + CellsOf(list) + 1
    ensures BytesOf(List(x, list)) == BytesOf(x) + BytesOf(list)
  {
  }

  // ---------------------------------------------------------------- true and nil

  /** The answers to tests, with their line ends. */
  const TRUE_LINE: seq<byte> := [50, 58, 35, 116, 13, 10]
  const NIL_LINE: seq<byte> := [40, 41, 13, 10]

  lemma TestLines()
    ensures Line(Encode(Atom(Ascii("#t")))) == TRUE_LINE && Line(Encode(Nil)) == NIL_LINE
    ensures !Refused(Atom(Ascii("#t")), 256) && !Refused(Nil, 256)
    ensures Writable(Atom(Ascii("#t"))) && Writable(Nil)
  {
    assert Ascii("#t") == [35, 116];
    assert Decimal(2) == [50];
  }

  predicate AnswersTest(w: World, message: seq<byte>, true_: bool) {
    && Served(w, message) && Next(w, message) == w && Verdict(w, message) == NoError
    && Reply(w, message) == if true_ then TRUE_LINE else NIL_LINE
  }

  lemma TestAnswered(w: World, message: seq<byte>, true_: bool)
    requires Session.Resting(w) && Gives(w, message, if true_ then Atom(Ascii("#t")) else Nil)
    ensures AnswersTest(w, message, true_)
  {
    TestLines();
    hide Gives, Ascii, Encode, Line, Refused, Writable, Session.Resting;
    GivenIsAnswered(w, message, if true_ then Atom(Ascii("#t")) else Nil);
  }

  /** (atom x) */
  lemma AtomCall(w: World, x: Tree, tail: seq<byte>)
    requires Callable(w, Ascii("atom"), PAtom, One(x), 0) && tail != []
    ensures AnswersTest(w, Encode(Call(Ascii("atom"), One(x))) + tail, x.Atom?)
  {
    CallableRests(w, Ascii("atom"), PAtom, One(x), 0);
    OneParts(x, w.env);
    var v := if x.Atom? then Atom(Ascii("#t")) else Nil;
    hide Callable, Gives, Eval, Encode, ApplyPrimitive, AppliedTo, Data, ShortNames, Ascii, Session.Resting,
         AnswersTest;
    AtomTest(x, Null, AppliedTo(w, Ascii("atom"), One(x)));
    NoCells(AppliedTo(w, Ascii("atom"), One(x)));
    CallGives(w, Ascii("atom"), PAtom, One(x), 0, tail, v, 0);
    TestAnswered(w, Encode(Call(Ascii("atom"), One(x))) + tail, x.Atom?);
  }

  /** (equal name x) */
  lemma EqualCall(w: World, name: seq<byte>, y: Tree, tail: seq<byte>)
    requires Callable(w, Ascii("equal"), PEqual, Two(Atom(name), y), 0) && tail != []
    ensures AnswersTest(w, Encode(Call(Ascii("equal"), Two(Atom(name), y))) + tail, y == Atom(name))
  {
    var args := Two(Atom(name), y);
    CallableRests(w, Ascii("equal"), PEqual, args, 0);
    var v := if y == Atom(name) then Atom(Ascii("#t")) else Nil;
    hide Callable, Gives, Eval, Encode, ApplyPrimitive, AppliedTo, Data, ShortNames, Ascii, Session.Resting,
         AnswersTest;
    EqualTest(Atom(name), y, Null, AppliedTo(w, Ascii("equal"), args));
    NoCells(AppliedTo(w, Ascii("equal"), args));
    CallGives(w, Ascii("equal"), PEqual, args, 0, tail, v, 0);
    TestAnswered(w, Encode(Call(Ascii("equal"), args)) + tail, y == Atom(name));
  }

  /** () is answered with (). */
  lemma EmptyCall(w: World, tail: seq<byte>)
    requires Session.Resting(w) && tail != []
    ensures AnswersTest(w, [40, 41] + tail, false)
  {
    RoundTrip.ParseEncode([40, 41] + tail, ParseState(0, NoError, w.cells, w.bytes), Nil, tail);
    NullIsNil(w);
    TestAnswered(w, [40, 41] + tail, false);
  }

  /** The names of a fresh server. */
  lemma InitialNames()
    ensures var env := Startup.InitialWorld().env;
      && Lookup(Ascii("quote"), env) == Prim(PQuote) && Lookup(Ascii("car"), env) == Prim(PCar)
      && Lookup(Ascii("cdr"), env) == Prim(PCdr) && Lookup(Ascii("cons"), env) == Prim(PCons)
      && Lookup(Ascii("equal"), env) == Prim(PEqual) && Lookup(Ascii("atom"), env) == Prim(PAtom)
      && Lookup(Ascii("cond"), env) == Prim(PCond) && Lookup(Ascii("lambda"), env) == Prim(PLambda)
      && Lookup(Ascii("label"), env) == Prim(PLabel)
  {
    var env := Startup.Primitives();
    forall i | 0 <= i < 9 ensures Lookup(env[i].name, env) == env[i].value {
      Session.PrimitivesBound(i);
    }
    hide Lookup;
    assert env[0] == Binding(Ascii("quote"), Prim(PQuote)) && env[1] == Binding(Ascii("car"), Prim(PCar));
    assert env[2] == Binding(Ascii("cdr"), Prim(PCdr)) && env[3] == Binding(Ascii("cons"), Prim(PCons));
    assert env[4] == Binding(Ascii("equal"), Prim(PEqual)) && env[5] == Binding(Ascii("atom"), Prim(PAtom));
    assert env[6] == Binding(Ascii("cond"), Prim(PCond)) && env[7] == Binding(Ascii("lambda"), Prim(PLambda));
    assert env[8] == Binding(Ascii("label"), Prim(PLabel));
  }
}
