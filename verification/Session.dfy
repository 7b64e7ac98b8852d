/** A server over its whole life: any number of messages, one after the other. */
module Session {
  import opened Bytes
  import opened Trees
  import opened Semantics
  import opened ExpressionPool
  import opened PoolInvariant
  import opened Interface
  import opened Laws
  import RoundTrip
  import Startup

  predicate AllServed(w: World, messages: seq<seq<byte>>)
    decreases |messages|
  {
    messages == [] || (Served(w, messages[0]) && AllServed(Next(w, messages[0]), messages[1..]))
  }

  /** The world after the messages. */
  function After(w: World, messages: seq<seq<byte>>): World
    requires AllServed(w, messages)
    decreases |messages|
  {
    if messages == [] then w else After(Next(w, messages[0]), messages[1..])
  }

  function Replies(w: World, messages: seq<seq<byte>>): seq<seq<byte>>
    requires AllServed(w, messages)
    decreases |messages|
  {
    if messages == [] then []
    else [Reply(w, messages[0])] + Replies(Next(w, messages[0]), messages[1..])
  }

  /** At rest, and within the limits. */
  predicate Resting(w: World) {
    && w.cells == w.markCells <= EXPRESSION_LIMIT && w.bytes == w.markBytes <= HEAP_SIZE
    && w.error == NoError
  }

  /**
   * Whatever a message is, malformed, too big, or ending in the middle of an evaluation, it leaves the
   * server at rest with all the bindings it had, and exactly as it was unless the bookmark has moved.
   */
  lemma NextGrows(w: World, message: seq<byte>)
    requires Served(w, message) && Resting(w)
    ensures var w' := Next(w, message);
            && Resting(w') && w.env <= w'.env && w.cells <= w'.cells && w.bytes <= w'.bytes
            && (w'.cells == w.cells ==> w' == w)
  {
    RoundTrip.ParseBounds(message, Begun(w));
    hide Encoding.Parse, Eval;
    var (t, s) := Read(w, message);
    if s.error == NoError {
      EvalGrows(t, Reading(w, s));
    }
  }

  function Begun(w: World): Encoding.ParseState {
    Encoding.ParseState(0, NoError, w.cells, w.bytes)
  }

  /**
   * Over any run a bound name keeps its value for ever, and a run that does not move the bookmark leaks
   * nothing: the world afterwards is the world before.
   */
  lemma {:induction false} RunKeepsBindings(w: World, messages: seq<seq<byte>>, name: seq<byte>)
    requires AllServed(w, messages) && Resting(w)
    ensures var w' := After(w, messages);
            && Resting(w') && w.env <= w'.env && w.cells <= w'.cells
            && (Bound(name, w.env) ==> Lookup(name, w'.env) == Lookup(name, w.env))
            && (w'.cells == w.cells ==> w' == w)
    decreases |messages|
  {
    if messages != [] {
      hide Next;
      var w1 := Next(w, messages[0]);
      NextGrows(w, messages[0]);
      RunKeepsBindings(w1, messages[1..], name);
      assert w1.env == w.env + w1.env[|w.env|..];
      LookupAppend(name, w.env, w1.env[|w.env|..]);
    }
  }

  /** What follows a name bound with `label`: in every later world it looks up to its value. */
  lemma LabelIsForEver(w: World, message: seq<byte>, later: seq<seq<byte>>, name: seq<byte>, value: Tree)
    requires Resting(w) && Served(w, message) && !Bound(name, w.env)
    requires Next(w, message).env == w.env + [Binding(name, value)]
    requires AllServed(Next(w, message), later)
    ensures Lookup(name, After(Next(w, message), later).env) == value
  {
    var w1 := Next(w, message);
    hide Next;
    NextGrows(w, message);
    LookupAppend(name, w.env, [Binding(name, value)]);
    assert Bound(name, w1.env) by {
      assert IsNamed(w1.env[|w.env|], name);
    }
    RunKeepsBindings(w1, later, name);
  }

  lemma PrimitivesBound(i: nat)
    requires i < |Startup.Primitives()|
    ensures Lookup(Startup.Primitives()[i].name, Startup.Primitives()) == Startup.Primitives()[i].value
  {
    var env := Startup.Primitives();
    assert forall j, k :: 0 <= j < k < |env| ==>
                            var x, y := env[j].name, env[k].name;
                            |x| != |y| || x[1] != y[1] || (|x| > 3 && x[3] != y[3]);
    LookupFirst(env, i);
  }

  lemma {:induction false} LookupFirst(env: Environment, i: nat)
    requires i < |env| && env[i].Binding? && forall j :: 0 <= j < i ==> !IsNamed(env[j], env[i].name)
    ensures Lookup(env[i].name, env) == env[i].value
  {
    if i > 0 {
      LookupFirst(env[1..], i - 1);
    }
  }

  /** After any run of a freshly started server every primitive still has its name. */
  lemma PrimitivesStay(messages: seq<seq<byte>>, i: nat)
    requires AllServed(Startup.InitialWorld(), messages) && i < |Startup.Primitives()|
    ensures var b := Startup.Primitives()[i];
            Lookup(b.name, After(Startup.InitialWorld(), messages).env) == b.value
  {
    var name := Startup.Primitives()[i].name;
    PrimitivesBound(i);
    assert IsNamed(Startup.Primitives()[i], name) && Bound(name, Startup.Primitives());
    RunKeepsBindings(Startup.InitialWorld(), messages, name);
  }

  /**
   * The messages an event loop hands to lisp_message_handler.  The replies and the final state are
   * those of the pure run, and no cell below the first bookmark has changed, the end of the environment
   * excepted.
   */
  method Serve(p: Lisp, messages: seq<seq<byte>>) returns (outputs: seq<seq<byte>>)
    requires AtRest(p) && AllServed(Quiet(p), messages)
    modifies p.Repr
    ensures AtRest(p) && Grown(old(p.g), p.g, [])
    ensures Quiet(p) == After(old(Quiet(p)), messages)
    ensures outputs == Replies(old(Quiet(p)), messages)
    decreases |messages|
  {
    hide AtRest, Next, Good, Grown, Reply;
    Boundary(p);
    outputs := [];
    if messages != [] {
      ghost var a := p.g;
      var handled, output := HandleMessage(p, messages[0]);
      ghost var b := p.g;
      var more := Serve(p, messages[1..]);
      GrownTrans(a, b, p.g, []);
      outputs := [output] + more;
    }
  }

  /** A freshly started server. */
  method Start(messages: seq<seq<byte>>) returns (outputs: seq<seq<byte>>)
    requires AllServed(Startup.InitialWorld(), messages)
    ensures outputs == Replies(Startup.InitialWorld(), messages)
  {
    hide AtRest, AllServed, Replies, Startup.InitialWorld;
    var p := Startup.Initialize();
    outputs := Serve(p, messages);
  }
}
