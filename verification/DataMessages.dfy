/**
 * What the server answers, from end to end: messages that are data, lists of names that stand for nothing
 * but themselves; messages that label data; and a message that does not do what it says.
 */
module DataMessages {
  import opened Bytes
  import opened Trees
  import opened Semantics
  import opened Encoding
  import RoundTrip
  import opened EmitLimit
  import opened Interface
  import Laws
  import Session
  import Startup

  /** A name the environment gives no other value. */
  predicate Inert(name: seq<byte>, env: Environment) {
    Lookup(name, env) == Null || Lookup(name, env) == Atom(name)
  }

  /** Inert names, and non-empty lists of data; a list headed by `lambda` is code. */
  predicate Data(t: Tree, env: Environment) {
    match t
    case Atom(name) => Inert(name, env)
    case List(a, d) => Data(a, env) && a != Atom(Ascii("lambda")) && DataRest(d, env)
    case _ => false
  }

  predicate DataRest(t: Tree, env: Environment) {
    match t
    case List(a, d) => Data(a, env) && DataRest(d, env)
    case Null => true
    case _ => false
  }

  /** One cell for every element of every list. */
  function ListCells(t: Tree): nat {
    match t
    case List(a, d) => ListCells(a) + 1 + ListCells(d)
    case _ => 0
  }

  lemma {:induction false} DataIsSolid(t: Tree, env: Environment)
    ensures Data(t, env) ==> RoundTrip.Solid(t)
    ensures DataRest(t, env) ==> t.Null? || RoundTrip.Solid(t)
    ensures Data(t, env) || DataRest(t, env) ==> FromSeq(Elems(t)) == if t.Atom? then Null else t
  {
    if t.List? {
      DataIsSolid(t.car, env);
      DataIsSolid(t.cdr, env);
      assert Elems(t)[1..] == Elems(t.cdr);
    }
  }

  /**
   * Data evaluate to themselves, for one cell for every element of every list; if these are too many, the
   * evaluation ends with the pool full and the error.
   */
  lemma {:induction false} DataEvaluate(t: Tree, w: World)
    requires Data(t, w.env) && w.cells <= EXPRESSION_LIMIT && w.error == NoError
    ensures if Fits(w, ListCells(t)) then Eval(t, w) == Value(t, Alloc(w, ListCells(t)))
            else Eval(t, w).Value? && Eval(t, w).world == Full(w)
    decreases t, 0
  {
    if t.List? {
      DataEvaluate(t.car, w);
      if Fits(w, ListCells(t.car) + 1) {
        var w1 := Alloc(w, ListCells(t.car) + 1);
        DataArguments(t.cdr, w1, [t.car]);
        DataIsSolid(t, w.env);
        assert Eval(t, w) == EvalCall(t.cdr, w1, t.car);
        if Fits(w, ListCells(t)) {
          assert [t.car] + Elems(t.cdr) == Elems(t);
          assert Eval(t, w) == Apply(Elems(t), Alloc(w, ListCells(t)));
        }
      }
    }
  }

  lemma {:induction false} DataArguments(rest: Tree, w: World, done: seq<Tree>)
    requires DataRest(rest, w.env)
    requires w.cells <= EXPRESSION_LIMIT && w.error == NoError
    ensures EvalArguments(rest, w, done) ==
            if Fits(w, ListCells(rest)) then Values(done + Elems(rest), Alloc(w, ListCells(rest)))
            else Failed(Full(w))
    decreases rest, 1
  {
    if rest.List? {
      DataEvaluate(rest.car, w);
      if Fits(w, ListCells(rest.car) + 1) {
        DataArguments(rest.cdr, Alloc(w, ListCells(rest.car) + 1), done + [rest.car]);
        assert done + [rest.car] + Elems(rest.cdr) == done + Elems(rest);
      }
    }
  }

  lemma EvalName(name: seq<byte>, h: Primitive, w: World)
    requires Lookup(name, w.env) == Prim(h)
    ensures Eval(Atom(name), w) == Value(Prim(h), w)
  {
  }

  lemma EvalList(f: Tree, e: Tree, args: Tree, w: World)
    requires e != Atom(Ascii("lambda")) && Eval(e, w) == Value(f, w)
    ensures Eval(List(e, args), w) == if Free(w) then EvalCall(args, Take(w), f) else Value(List(e, args), Take(w))
  {
  }

  /** A primitive called with data is applied to them, if there are cells for the list of them. */
  lemma PrimitiveCall(symbol: seq<byte>, h: Primitive, args: Tree, w: World)
    requires Lookup(symbol, w.env) == Prim(h) && symbol != Ascii("lambda") && DataRest(args, w.env)
    requires w.cells <= EXPRESSION_LIMIT && w.error == NoError
    ensures var o, n := Eval(List(Atom(symbol), args), w), 1 + ListCells(args);
            if Fits(w, n) then o == ApplyPrimitive(h, args, Alloc(w, n)) else o.Value? && o.world == Full(w)
  {
    hide Eval, ApplyPrimitive, ListCells, Elems, EvalArguments, Ascii, Lookup;
    var f := Prim(h);
    EvalName(symbol, h, w);
    EvalList(f, Atom(symbol), args, w);
    if Free(w) {
      DataArguments(args, Take(w), [f]);
      DataIsSolid(args, w.env);
      hide DataRest;
      var vs := [f] + Elems(args);
      assert vs[0] == f && vs[1..] == Elems(args);
    }
  }

  /** A solid value that has been read has a short encoding. */
  lemma {:induction false} CodeBound(t: Tree)
    requires ShortNames(t)
    ensures RoundTrip.Solid(t) ==> |Encode(t)| <= 3 * CellsOf(t) + BytesOf(t)
    ensures t.Null? || RoundTrip.Solid(t) ==> |EncodeRest(t)| <= 3 * CellsOf(t) + BytesOf(t)
    ensures t.List? && RoundTrip.Solid(t) ==> |EncodeRest(t)| + 3 <= 3 * CellsOf(t) + BytesOf(t)
  {
    match t {
      case Atom(name) => NameCode(name);
      case List(a, d) =>
        CodeBound(a);
        CodeBound(d);
        ListLength(t);
      case _ =>
    }
  }

  /** The message can be read: its cells and bytes fit above the bookmark. */
  predicate Readable(w: World, t: Tree) {
    w.cells + CellsOf(t) <= EXPRESSION_LIMIT && w.bytes + BytesOf(t) <= HEAP_SIZE
  }

  /** The world in which a message is evaluated. */
  function Begun(w: World, t: Tree): World {
    w.(cells := w.cells + CellsOf(t), bytes := w.bytes + BytesOf(t))
  }

  lemma ReadData(w: World, t: Tree, tail: seq<byte>)
    requires Session.Resting(w) && t.List? && RoundTrip.Solid(t) && ShortNames(t) && tail != []
    ensures var (u, s) := Read(w, Encode(t) + tail);
            if Readable(w, t) then u == t && s.error == NoError && Reading(w, s) == Begun(w, t) && Writable(t)
            else s.error != NoError
  {
    var s := ParseState(0, NoError, w.cells, w.bytes);
    if Readable(w, t) {
      RoundTrip.RoundTrip(t, tail, s);
      CodeBound(t);
    } else {
      RoundTrip.ListTooBig(t, tail, s);
    }
  }

  /**
   * A list of data, with anything behind it, is answered with itself exactly if it can be read, its copy
   * fits into the pool, and it is not too long; a copy that does not fit is answered with the limit error.
   * In any case the server is afterwards what it was before.
   */
  lemma DataEcho(w: World, t: Tree, tail: seq<byte>)
    requires Session.Resting(w) && t.List? && Data(t, w.env) && ShortNames(t) && tail != []
    ensures var message := Encode(t) + tail;
      && Served(w, message) && Next(w, message) == w
      && var verdict := Verdict(w, message);
         && (verdict == NoError <==>
               Readable(w, t) && Fits(Begun(w, t), ListCells(t)) && !Refused(t, WRITER_BUFFER_SIZE))
         && (verdict == NoError ==> Reply(w, message) == Line(Encode(t)))
         && (Readable(w, t) && !Fits(Begun(w, t), ListCells(t)) ==>
               Reply(w, message) == ErrorMessage(LimitExpressions))
  {
    DataIsSolid(t, w.env);
    ReadData(w, t, tail);
    if Readable(w, t) {
      DataEvaluate(t, Begun(w, t));
    }
  }

  // ---------------------------------------------------------------- label, and asking for it later

  /** (label name value) */
  function Labelling(name: seq<byte>, value: Tree): Tree {
    List(Atom(Ascii("label")), List(Atom(name), List(value, Null)))
  }

  /** The message can be read, and its elements evaluated. */
  predicate CanLabel(w: World, name: seq<byte>, value: Tree) {
    && Session.Resting(w) && Lookup(Ascii("label"), w.env) == Prim(PLabel)
    && Inert(name, w.env) && |name| <= ATOM_SIZE_LIMIT && Data(value, w.env) && ShortNames(value)
    && Readable(w, Labelling(name, value)) && Fits(Begun(w, Labelling(name, value)), 3 + ListCells(value))
  }

  /** The world in which `label` is applied. */
  function Applied(w: World, name: seq<byte>, value: Tree): World {
    Alloc(Begun(w, Labelling(name, value)), 3 + ListCells(value))
  }

  lemma LabelEvaluate(name: seq<byte>, value: Tree, w: World)
    requires Lookup(Ascii("label"), w.env) == Prim(PLabel) && Inert(name, w.env) && Data(value, w.env)
    requires Fits(w, 3 + ListCells(value)) && w.error == NoError
    ensures Eval(Labelling(name, value), w) == Value(TRUTH_TREE, Bind(name, value, Alloc(w, 3 + ListCells(value))))
  {
    hide Eval, ListCells, DataRest, Data, Ascii, Lookup, Bind, Inert, ApplyPrimitive;
    TwoArguments(name, value, w.env);
    PrimitiveCall(Ascii("label"), PLabel, List(Atom(name), List(value, Null)), w);
    ApplyLabel(name, value, Alloc(w, 3 + ListCells(value)));
  }

  lemma OneArgument(value: Tree, env: Environment)
    requires Data(value, env)
    ensures DataRest(List(value, Null), env) && ListCells(List(value, Null)) == ListCells(value) + 1
  {
  }

  lemma TwoArguments(name: seq<byte>, value: Tree, env: Environment)
    requires Inert(name, env) && Data(value, env)
    ensures var args := List(Atom(name), List(value, Null));
            DataRest(args, env) && ListCells(args) == ListCells(value) + 2
  {
    OneArgument(value, env);
  }

  lemma ApplyLabel(name: seq<byte>, value: Tree, w: World)
    ensures ApplyPrimitive(PLabel, List(Atom(name), List(value, Null)), w) == Value(TRUTH_TREE, Bind(name, value, w))
  {
    hide Bind;
  }

  lemma LabellingPlain(name: seq<byte>, value: Tree)
    requires |name| <= ATOM_SIZE_LIMIT && ShortNames(value) && RoundTrip.Solid(value)
    ensures ShortNames(Labelling(name, value)) && RoundTrip.Solid(Labelling(name, value))
  {
    var last := List(value, Null);
    assert ShortNames(last) && RoundTrip.Solid(last);
    var rest := List(Atom(name), last);
    assert ShortNames(rest) && RoundTrip.Solid(rest);
  }

  lemma TruthCode()
    ensures |Encode(TRUTH_TREE)| == 4 && TRUTH_TREE != Null
    ensures !Refused(TRUTH_TREE, WRITER_BUFFER_SIZE) && Writable(TRUTH_TREE)
  {
    assert Decimal(2) == [50];
  }

  /**
   * A message that labels data leaves what `Bind` leaves.  It is answered with truth, and adds its
   * binding, exactly if four more cells and the bytes of the name are left; otherwise it is answered with
   * a limit error, and the bookmark moves all the same.
   */
  lemma LabelMessage(w: World, name: seq<byte>, value: Tree, tail: seq<byte>)
    requires CanLabel(w, name, value) && tail != []
    ensures var message := Encode(Labelling(name, value)) + tail;
      var applied := Applied(w, name, value);
      && Served(w, message)
      && Next(w, message) == Bind(name, value, applied).(error := NoError)
      && (Next(w, message).env == w.env + [Binding(name, value)] <==> Laws.BindFits(name, applied))
      && Verdict(w, message) == Bind(name, value, applied).error
      && (Verdict(w, message) == NoError <==> Laws.BindFits(name, applied))
      && Reply(w, message) ==
           if Laws.BindFits(name, applied) then Encode(TRUTH_TREE) + CRLF
           else ErrorMessage(Bind(name, value, applied).error)
  {
    LabelRun(w, name, value, tail);
    hide Eval, Encode, Data, Decimal, Bind, Encoding.Parse, Refused, CanLabel, Read, Run, Applied, ErrorMessage;
    TruthCode();
    LabelRest(w, name, value);
  }

  lemma LabelRest(w: World, name: seq<byte>, value: Tree)
    requires CanLabel(w, name, value)
    ensures var applied := Applied(w, name, value); var w' := Bind(name, value, applied);
      && Rest(w') == w'.(error := NoError)
      && (w'.env == w.env + [Binding(name, value)] <==> Laws.BindFits(name, applied))
      && (w'.error == NoError <==> Laws.BindFits(name, applied))
  {
    Laws.LabelBinds(name, value, Applied(w, name, value));
  }

  /** The message is read, and its evaluation comes to applying `label`. */
  lemma LabelRun(w: World, name: seq<byte>, value: Tree, tail: seq<byte>)
    requires CanLabel(w, name, value) && tail != []
    ensures var message := Encode(Labelling(name, value)) + tail;
            && Read(w, message).1.error == NoError
            && Run(w, message) == Value(TRUTH_TREE, Bind(name, value, Applied(w, name, value)))
  {
    hide Refused, Encode, Eval, Encoding.Parse, Bind, Data, RoundTrip.Solid, ShortNames, Writable;
    var t := Labelling(name, value);
    DataIsSolid(value, w.env);
    LabellingPlain(name, value);
    ReadData(w, t, tail);
    LabelEvaluate(name, value, Begun(w, t));
  }

  /**
   * The promise of `label` from end to end: once (label name value) has been answered with truth, and
   * whatever messages follow, sending the name is answered with the value, as far as there is room to
   * read the name and to write the value.
   */
  lemma LabelledIsRemembered(w: World, name: seq<byte>, value: Tree, tail: seq<byte>,
                             later: seq<seq<byte>>, tail': seq<byte>)
    requires CanLabel(w, name, value) && tail != [] && !Laws.Bound(name, w.env)
    requires Laws.BindFits(name, Applied(w, name, value))
    requires Served(w, Encode(Labelling(name, value)) + tail)
    requires Session.AllServed(Next(w, Encode(Labelling(name, value)) + tail), later)
    ensures var w' := Session.After(Next(w, Encode(Labelling(name, value)) + tail), later);
            Answers(w', name, value, tail')
  {
    var message := Encode(Labelling(name, value)) + tail;
    LabelMessage(w, name, value, tail);
    ValueWritable(w, name, value);
    assert Session.Resting(w);
    hide Next, Served, Session.AllServed, Encode, CanLabel, Answers, Laws.BindFits, Bind, Writable, Verdict, Reply;
    var w1 := Next(w, message);
    Session.LabelIsForEver(w, message, later, name, value);
    Session.NextGrows(w, message);
    Session.RunKeepsBindings(w1, later, name);
    Asked(Session.After(w1, later), name, value, tail');
  }

  lemma ValueWritable(w: World, name: seq<byte>, value: Tree)
    requires CanLabel(w, name, value)
    ensures Writable(value) && value != Null && |name| <= ATOM_SIZE_LIMIT
  {
    DataIsSolid(value, w.env);
    CodeBound(value);
    LabellingCost(name, value);
  }

  lemma LabellingCost(name: seq<byte>, value: Tree)
    ensures CellsOf(Labelling(name, value)) == CellsOf(value) + 5
    ensures BytesOf(Labelling(name, value)) == BytesOf(value) + |name| + 5
  {
    var last := List(value, Null);
    assert CellsOf(last) == CellsOf(value) + 1 && BytesOf(last) == BytesOf(value);
    var rest := List(Atom(name), last);
    assert CellsOf(rest) == CellsOf(value) + 3 && BytesOf(rest) == |name| + BytesOf(value);
  }

  /** A name sent alone is answered with its value, or with the exact error. */
  predicate Answers(w: World, name: seq<byte>, value: Tree, tail: seq<byte>) {
    var question := Encode(Atom(name)) + tail;
    && Served(w, question) && Next(w, question) == w
    && Verdict(w, question) ==
         (if !Free(w) then LimitExpressions
          else if !NameFits(w, name) then LimitMemory
          else if Refused(value, WRITER_BUFFER_SIZE) then LimitEmit
          else NoError)
    && (Verdict(w, question) == NoError ==> Reply(w, question) == Line(Encode(value)))
  }

  lemma Asked(w: World, name: seq<byte>, value: Tree, tail: seq<byte>)
    requires Session.Resting(w) && |name| <= ATOM_SIZE_LIMIT
    requires value != Null && Lookup(name, w.env) == value && Writable(value)
    ensures Answers(w, name, value, tail)
  {
    var s, input := ParseState(0, NoError, w.cells, w.bytes), Encode(Atom(name)) + tail;
    if NameFits(w, name) {
      RoundTrip.ParseEncode(input, s, Atom(name), tail);
    } else {
      RoundTrip.TokenTooBig(input, s, name, tail);
    }
  }

  // ---------------------------------------------------------------- a reply without a value

  /** (cdr list) */
  function CdrOf(list: Tree): Tree {
    List(Atom(Ascii("cdr")), List(list, Null))
  }

  lemma CdrPlain(list: Tree)
    requires ShortNames(list) && RoundTrip.Solid(list)
    ensures ShortNames(CdrOf(list)) && RoundTrip.Solid(CdrOf(list))
    ensures CellsOf(CdrOf(list)) == CellsOf(list) + 3 && BytesOf(CdrOf(list)) == BytesOf(list) + 3
  {
    var last := List(list, Null);
    assert ShortNames(last) && RoundTrip.Solid(last);
    assert CellsOf(last) == CellsOf(list) + 1 && BytesOf(last) == BytesOf(list);
  }

  lemma ApplyCdr(list: Tree, w: World)
    requires list.List?
    ensures ApplyPrimitive(PCdr, List(list, Null), w) == Value(list.cdr, w)
  {
  }

  lemma CdrEvaluate(list: Tree, w: World)
    requires Lookup(Ascii("cdr"), w.env) == Prim(PCdr) && list.List? && Data(list, w.env)
    requires Fits(w, 2 + ListCells(list)) && w.error == NoError
    ensures Eval(CdrOf(list), w) == Value(list.cdr, Alloc(w, 2 + ListCells(list)))
  {
    hide Eval, ListCells, DataRest, Data, Ascii, Lookup, ApplyPrimitive;
    OneArgument(list, w.env);
    PrimitiveCall(Ascii("cdr"), PCdr, List(list, Null), w);
    ApplyCdr(list, Alloc(w, 2 + ListCells(list)));
  }

  /**
   * (cdr list), where there is room for it, makes the server write a line end through NULL exactly if the
   * list has one element; otherwise it is answered.
   */
  lemma CdrMessage(w: World, list: Tree, tail: seq<byte>)
    requires Session.Resting(w) && Lookup(Ascii("cdr"), w.env) == Prim(PCdr)
    requires list.List? && Data(list, w.env) && ShortNames(list) && tail != []
    requires Readable(w, CdrOf(list)) && Fits(Begun(w, CdrOf(list)), 2 + ListCells(list))
    ensures FaultOf(w, Encode(CdrOf(list)) + tail) == if list.cdr.Null? then NullWritten else NoFault
  {
    hide Encode, Data, Read, Run, Readable, FaultOf, ListCells, Lookup, Ascii, CdrOf, Writable;
    CdrRun(w, list, tail);
    ValueFault(w, Encode(CdrOf(list)) + tail);
  }

  lemma ValueFault(w: World, message: seq<byte>)
    requires Read(w, message).1.error == NoError && Run(w, message).Value?
    requires var o := Run(w, message); o.world.error == NoError && (o.value.Null? || Writable(o.value))
    ensures FaultOf(w, message) == if Run(w, message).value.Null? then NullWritten else NoFault
  {
    hide Read, Run, Writable;
  }

  lemma CdrRun(w: World, list: Tree, tail: seq<byte>)
    requires Session.Resting(w) && Lookup(Ascii("cdr"), w.env) == Prim(PCdr)
    requires list.List? && Data(list, w.env) && ShortNames(list) && tail != []
    requires Readable(w, CdrOf(list)) && Fits(Begun(w, CdrOf(list)), 2 + ListCells(list))
    ensures var message := Encode(CdrOf(list)) + tail;
            && Read(w, message).1.error == NoError
            && Run(w, message) == Value(list.cdr, Alloc(Begun(w, CdrOf(list)), 2 + ListCells(list)))
    ensures list.cdr.Null? || Writable(list.cdr)
  {
    DataIsSolid(list, w.env);
    CdrWritable(w, list);
    hide Encode, Eval, Encoding.Parse, Refused, Data, RoundTrip.Solid, ShortNames, Writable, Ascii, Lookup, ListCells;
    CdrPlain(list);
    ReadData(w, CdrOf(list), tail);
    CdrEvaluate(list, Begun(w, CdrOf(list)));
  }

  lemma CdrWritable(w: World, list: Tree)
    requires list.List? && RoundTrip.Solid(list) && ShortNames(list) && Readable(w, CdrOf(list))
    ensures list.cdr.Null? || Writable(list.cdr)
  {
    CdrPlain(list);
    CodeBound(list.cdr);
  }

  /** So the message (3:cdr(1:x)), sent to a fresh server, is one. */
  lemma CdrOfOne(tail: seq<byte>)
    requires tail != []
    ensures var message := Encode(CdrOf(List(Atom([120]), Null))) + tail;
            !Served(Startup.InitialWorld(), message) && FaultOf(Startup.InitialWorld(), message) == NullWritten
  {
    var w, list := Startup.InitialWorld(), List(Atom([120]), Null);
    hide Encode, Startup.Primitives, Encoding.Parse, Data, Ascii, Lookup, FaultOf, ShortNames, RoundTrip.Solid,
         ListCells, CellsOf, BytesOf, Inert;
    InitialCdr();
    OneName([120], w.env);
    CdrPlain(list);
    CdrMessage(w, list, tail);
  }

  lemma OneName(name: seq<byte>, env: Environment)
    requires Inert(name, env) && |name| == 1
    ensures var t := List(Atom(name), Null);
            && CellsOf(t) == 2 && BytesOf(t) == 1 && ListCells(t) == 1 && Data(t, env)
            && RoundTrip.Solid(t) && ShortNames(t)
  {
    assert |Ascii("lambda")| == 6;
  }

  lemma InitialCdr()
    ensures Lookup(Ascii("cdr"), Startup.Primitives()) == Prim(PCdr) && Inert([120], Startup.Primitives())
  {
    var env := Startup.Primitives();
    Session.PrimitivesBound(2);
    assert env[2] == Binding(Ascii("cdr"), Prim(PCdr));
    assert forall i :: 0 <= i < |env| ==> |env[i].name| > 1;
    Laws.LookupUnbound([120], env);
  }

  // ---------------------------------------------------------------- a reply past the limit

  /** `t` in `k` lists of one element. */
  function Nest(k: nat, t: Tree): Tree {
    if k == 0 then t else List(Nest(k - 1, t), Null)
  }

  lemma {:induction false} NestFacts(k: nat, t: Tree, env: Environment)
    requires t.List? && Data(t, env) && ShortNames(t)
    ensures var u := Nest(k, t);
            && u.List? && Data(u, env) && ShortNames(u) && |Encode(u)| == |Encode(t)| + 2 * k
            && CellsOf(u) == CellsOf(t) + k && BytesOf(u) == BytesOf(t) && ListCells(u) == ListCells(t) + k
  {
    if k > 0 {
      NestFacts(k - 1, t, env);
      ListLength(Nest(k, t));
    }
  }

  lemma {:induction false} NestRefused(k: nat, t: Tree, r: int)
    requires r > k + 1
    ensures Refused(Nest(k, t), r) <==> Refused(t, r - k)
  {
    if k > 0 {
      NestRefused(k - 1, t, r - 1);
    }
  }

  function Four(name: seq<byte>): Tree {
    var a := Atom(name);
    List(a, List(a, List(a, List(a, Null))))
  }

  lemma FourFacts(name: seq<byte>, env: Environment)
    requires |name| == 53 && Inert(name, env)
    ensures var t := Four(name);
            && t.List? && Data(t, env) && ShortNames(t) && |Encode(t)| == 226
            && CellsOf(t) == 8 && BytesOf(t) == 212 && ListCells(t) == 4
  {
    var a := Atom(name);
    var t1 := List(a, Null);
    var t2 := List(a, t1);
    var t3 := List(a, t2);
    NameCode(name);
    ListLength(List(a, t3));
    NameFirst(name, Null, env);
    NameFirst(name, t1, env);
    NameFirst(name, t2, env);
    NameFirst(name, t3, env);
    hide ListCells, ShortNames, CellsOf, BytesOf, DataRest, EncodeRest;
    assert |Ascii("lambda")| == 6;
  }

  /** What a name adds to the elements behind it. */
  lemma NameFirst(name: seq<byte>, t: Tree, env: Environment)
    requires Inert(name, env) && |name| <= ATOM_SIZE_LIMIT && DataRest(t, env)
    ensures var r := List(Atom(name), t);
      && DataRest(r, env) && (ShortNames(r) <==> ShortNames(t)) && ListCells(r) == 1 + ListCells(t)
      && CellsOf(r) == 2 + CellsOf(t) && BytesOf(r) == |name| + BytesOf(t)
      && EncodeRest(r) == Encode(Atom(name)) + EncodeRest(t)
      && |EncodeRest(r)| == |Encode(Atom(name))| + |EncodeRest(t)|
  {
    hide Encode, Inert;
  }

  /**
   * The handler gives lispEmit 256 bytes, but four names of 53 bytes in 16 to 29 nested lists, sent to a
   * fresh server, are answered with all of their more than 256 bytes: byte number 256 is a closing
   * parenthesis behind another one.
   */
  lemma ReplyPassesLimit(name: seq<byte>, k: nat, tail: seq<byte>)
    requires |name| == 53 && 16 <= k < 30 && tail != []
    ensures var w, t := Startup.InitialWorld(), Nest(k, Four(name));
      && Served(w, Encode(t) + tail) && Verdict(w, Encode(t) + tail) == NoError
      && Reply(w, Encode(t) + tail) == Encode(t) && |Encode(t)| == 226 + 2 * k > WRITER_BUFFER_SIZE
  {
    var w, t := Startup.InitialWorld(), Nest(k, Four(name));
    LongNameInert(name);
    NestedFour(name, k, w.env);
    hide Startup.Primitives, Encode, Four, Nest, Refused, Data, ShortNames, Encoding.Parse, Verdict, Reply, Served;
    DataEcho(w, t, tail);
  }

  lemma LongNameInert(name: seq<byte>)
    requires |name| == 53
    ensures Inert(name, Startup.Primitives())
  {
    var env := Startup.Primitives();
    assert forall i :: 0 <= i < |env| ==> |env[i].name| < 10;
    Laws.LookupUnbound(name, env);
  }

  lemma NestedFour(name: seq<byte>, k: nat, env: Environment)
    requires |name| == 53 && 16 <= k < 30 && Inert(name, env)
    ensures var t := Nest(k, Four(name));
            && t.List? && Data(t, env) && ShortNames(t) && |Encode(t)| == 226 + 2 * k
            && CellsOf(t) == 8 + k && BytesOf(t) == 212 && ListCells(t) == 4 + k
            && !Refused(t, WRITER_BUFFER_SIZE)
  {
    hide Encode, Four, Nest, Refused, Data, ShortNames, CellsOf, BytesOf, ListCells, Inert;
    FourFacts(name, env);
    NestFacts(k, Four(name), env);
    NestRefused(k, Four(name), WRITER_BUFFER_SIZE);
    RoomEnough(Four(name), WRITER_BUFFER_SIZE - k);
  }

  // ---------------------------------------------------------------- running full

  const Y: seq<byte> := [121]

  /** (label y y), or (label y (y)), and a line end. */
  function LabelY(nested: bool): seq<byte> {
    Encode(Labelling(Y, ValueY(nested))) + CRLF
  }

  function ValueY(nested: bool): Tree {
    if nested then List(Atom(Y), Null) else Atom(Y)
  }

  /** A server at rest, in which y stands for nothing but itself. */
  predicate Labels(w: World) {
    && Session.Resting(w) && Lookup(Ascii("label"), w.env) == Prim(PLabel)
    && (!Laws.Bound(Y, w.env) || Lookup(Y, w.env) == Atom(Y))
  }

  lemma LabelsStay(w: World, nested: bool)
    requires Labels(w) && (nested ==> Lookup(Y, w.env) == Atom(Y))
    ensures Inert(Y, w.env)
    ensures var env := w.env + [Binding(Y, ValueY(nested))];
            && Lookup(Ascii("label"), env) == Prim(PLabel) && Lookup(Y, env) == Atom(Y)
  {
    var more := [Binding(Y, ValueY(nested))];
    Laws.LookupUnbound(Ascii("label"), w.env);
    Laws.LookupUnbound(Y, w.env);
    Laws.LookupAppend(Ascii("label"), w.env, more);
    Laws.LookupAppend(Y, w.env, more);
    assert Lookup(Y, more) == ValueY(nested);
  }

  /** One such message takes 13 cells, or 15, and 8 bytes, for ever. */
  lemma LabelYStep(w: World, nested: bool)
    requires Labels(w) && (nested ==> Lookup(Y, w.env) == Atom(Y))
    requires w.cells + 15 <= EXPRESSION_LIMIT && w.bytes + 8 <= HEAP_SIZE
    ensures Served(w, LabelY(nested))
    ensures var w' := Next(w, LabelY(nested));
            && Labels(w') && Lookup(Y, w'.env) == Atom(Y)
            && w'.cells == w.cells + (if nested then 15 else 13) && w'.bytes == w.bytes + 8
  {
    hide Bind, Data, Encode, ListCells, CellsOf, BytesOf, ShortNames, Served, Next, Verdict, Reply, ValueY;
    LabelsStay(w, nested);
    ValueYFacts(nested, w.env);
    LabelMessage(w, Y, ValueY(nested), CRLF);
    Laws.LabelBinds(Y, ValueY(nested), Applied(w, Y, ValueY(nested)));
  }

  lemma ValueYFacts(nested: bool, env: Environment)
    requires Inert(Y, env)
    ensures var v := ValueY(nested);
            && Data(v, env) && ShortNames(v) && ListCells(v) == (if nested then 1 else 0)
            && CellsOf(v) == (if nested then 2 else 1) && BytesOf(v) == 1
            && CellsOf(Labelling(Y, v)) == CellsOf(v) + 5 && BytesOf(Labelling(Y, v)) == 7
  {
    LabellingCost(Y, ValueY(nested));
  }

  function MessagesY(kinds: seq<bool>): seq<seq<byte>> {
    if kinds == [] then [] else [LabelY(kinds[0])] + MessagesY(kinds[1..])
  }

  function CellsY(kinds: seq<bool>): nat {
    if kinds == [] then 0 else (if kinds[0] then 15 else 13) + CellsY(kinds[1..])
  }

  lemma {:induction false} LabelYRun(w: World, kinds: seq<bool>)
    requires Labels(w) && (kinds != [] && kinds[0] ==> Lookup(Y, w.env) == Atom(Y))
    requires w.cells + 15 * |kinds| <= EXPRESSION_LIMIT && w.bytes + 8 * |kinds| <= HEAP_SIZE
    ensures Session.AllServed(w, MessagesY(kinds))
    ensures var w' := Session.After(w, MessagesY(kinds));
            && Labels(w') && w'.cells == w.cells + CellsY(kinds) && w'.bytes == w.bytes + 8 * |kinds|
            && (kinds != [] ==> Lookup(Y, w'.env) == Atom(Y))
    decreases |kinds|
  {
    if kinds != [] {
      hide Labels, LabelY, Next, Served;
      LabelYStep(w, kinds[0]);
      LabelYRun(Next(w, LabelY(kinds[0])), kinds[1..]);
      assert MessagesY(kinds)[1..] == MessagesY(kinds[1..]);
    }
  }

  const SEVEN: seq<bool> := [false, false, false, true, true, true, true]

  lemma CellsOfSeven()
    ensures CellsY(SEVEN) == 99 && |SEVEN| == 7
  {
    var k4 := [true, true, true, true];
    assert k4[1..] == [true, true, true] && k4[1..][1..] == [true, true] && k4[1..][1..][1..] == [true];
    assert CellsY([true]) == 15 + CellsY([true][1..]) == 15;
    assert CellsY([true, true]) == 30 && CellsY([true, true, true]) == 45 && CellsY(k4) == 60;
    assert SEVEN[1..] == [false, false] + k4 && SEVEN[1..][1..] == [false] + k4 && SEVEN[1..][1..][1..] == k4;
    assert CellsY([false] + k4) == 13 + CellsY(([false] + k4)[1..]) == 73;
  }

  /** A resting server whose pool is full reads no name any more. */
  lemma FullForEver(w: World, name: seq<byte>, tail: seq<byte>)
    requires Session.Resting(w) && !Free(w) && |name| <= ATOM_SIZE_LIMIT
    ensures var message := Encode(Atom(name)) + tail;
            && Served(w, message) && Verdict(w, message) == LimitExpressions && Next(w, message) == w
  {
    RoundTrip.TokenTooBig(Encode(Atom(name)) + tail, ParseState(0, NoError, w.cells, w.bytes), name, tail);
  }

  /**
   * It is not true that only bindings stay in the pool.  A fresh server is sent (label y y) three times,
   * (label y (y)) four times, all answered with truth, and then (label y y) once more: that one is answered
   * with the limit error and binds nothing, but it takes the last cells, and no name is ever read again.
   */
  lemma LabelFillsPool(name: seq<byte>, tail: seq<byte>)
    requires |name| <= ATOM_SIZE_LIMIT
    ensures Session.AllServed(Startup.InitialWorld(), MessagesY(SEVEN))
    ensures var w := Session.After(Startup.InitialWorld(), MessagesY(SEVEN));
      && w.cells == 148 && Served(w, LabelY(false)) && Verdict(w, LabelY(false)) == LimitExpressions
      && var w' := Next(w, LabelY(false));
         && w'.env == w.env && w'.cells == EXPRESSION_LIMIT
         && Served(w', Encode(Atom(name)) + tail)
         && Verdict(w', Encode(Atom(name)) + tail) == LimitExpressions
  {
    InitialLabels();
    CellsOfSeven();
    LabelYRun(Startup.InitialWorld(), SEVEN);
    var w := Session.After(Startup.InitialWorld(), MessagesY(SEVEN));
    LastLabel(w);
    FullForEver(Next(w, LabelY(false)), name, tail);
  }

  lemma InitialLabels()
    ensures Labels(Startup.InitialWorld())
  {
    var env := Startup.Primitives();
    Session.PrimitivesBound(8);
    assert env[8] == Binding(Ascii("label"), Prim(PLabel));
    assert forall i :: 0 <= i < |env| ==> |env[i].name| > 1;
  }

  lemma LastLabel(w: World)
    requires Labels(w) && Lookup(Y, w.env) == Atom(Y) && w.cells == 148 && w.bytes <= 240
    ensures Served(w, LabelY(false)) && Verdict(w, LabelY(false)) == LimitExpressions
    ensures var w' := Next(w, LabelY(false));
            Session.Resting(w') && w'.env == w.env && w'.cells == EXPRESSION_LIMIT
  {
    ValueYFacts(false, w.env);
    LabelMessage(w, Y, ValueY(false), CRLF);
    Laws.LabelBinds(Y, ValueY(false), Applied(w, Y, ValueY(false)));
  }

  // ---------------------------------------------------------------- quote

  /** (quote car) */
  function Quotation(): Tree {
    List(Atom(Ascii("quote")), List(Atom(Ascii("car")), Null))
  }

  lemma QuotationRead(w: World, tail: seq<byte>)
    requires w == Startup.InitialWorld() && tail != []
    ensures var (u, s) := Read(w, Encode(Quotation()) + tail);
            u == Quotation() && s.error == NoError && Reading(w, s) == Begun(w, Quotation())
    ensures Begun(w, Quotation()) == w.(cells := 53, bytes := 51)
  {
    var rest := List(Atom(Ascii("car")), Null);
    assert RoundTrip.Solid(rest) && ShortNames(rest) && CellsOf(rest) == 2 && BytesOf(rest) == 3;
    hide Startup.Primitives, Encode, Encoding.Parse;
    ReadData(w, Quotation(), tail);
  }

  lemma QuotationRun(w: World)
    requires w.env == Startup.Primitives() && Fits(w, 2) && w.error == NoError
    ensures Eval(Quotation(), w) == Value(Prim(PCar), Take(Take(w)))
  {
    Session.PrimitivesBound(0);
    Session.PrimitivesBound(1);
    assert Startup.Primitives()[0] == Binding(Ascii("quote"), Prim(PQuote));
    assert Startup.Primitives()[1] == Binding(Ascii("car"), Prim(PCar));
    hide Startup.Primitives, Ascii;
    assert Eval(Atom(Ascii("car")), Take(w)) == Value(Prim(PCar), Take(w));
    Laws.QuoteEvaluates(Atom(Ascii("car")), w);
  }

  lemma PrimitiveCode()
    ensures Encode(Prim(PCar)) == Ascii("(9:primitive)") && |Encode(Prim(PCar))| == 13
    ensures Writable(Prim(PCar)) && !Refused(Prim(PCar), WRITER_BUFFER_SIZE)
  {
  }

  /** (quote car), sent to a fresh server, is answered with (9:primitive), and not with the name. */
  lemma QuoteCar()
    ensures var message := Encode(Quotation()) + CRLF;
            && Served(Startup.InitialWorld(), message)
            && Reply(Startup.InitialWorld(), message) == Ascii("(9:primitive)") + CRLF
  {
    var w := Startup.InitialWorld();
    QuotationRead(w, CRLF);
    QuotationRun(Begun(w, Quotation()));
    PrimitiveCode();
    hide Startup.Primitives, Quotation, Eval, Encode, Ascii, Read, Refused;
  }
}
