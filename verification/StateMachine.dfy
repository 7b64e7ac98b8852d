/**
 * The protocol state machine of src/common/state/machine.c: messages that match move it on, and a timer
 * resends the last message, five times at most, before it reports an error.
 */
module StateMachine {
  import opened Options
  import opened Bytes
  import opened Trees
  import opened Semantics
  import opened ExpressionPool
  import opened PoolInvariant
  import opened Encoding
  import opened Interface
  import opened Evaluator
  import Parser

  const RETRY_MAXIMUM: nat := 5
  const TIMEOUT_COUNT: nat := 20
  const STATE_ERROR: nat := 0
  const STATE_IDLE: nat := 1

  /** match_type with match_data; for the number matches only its presence counts. */
  datatype Match =
    | MatchAny
    | MatchErrorParse
    | MatchNil
    | MatchTrue
    | MatchAtom
    | MatchAtomNumber(hexadecimal: bool)
    | MatchAtomSymbol(symbol: seq<byte>)
    | MatchList
    | MatchListNumber(hexadecimal: bool)
    | MatchListSymbol(symbol: seq<byte>)
    | MatchUserDefined

  type Action = nat
  type Stream = nat

  datatype Row = Row(state: nat, match_: Match, action: Action)

  // ---------------------------------------------------------------- matching

  predicate IsNumeral(ch: byte, hexadecimal: bool) {
    48 <= ch <= 57 || (hexadecimal && (65 <= ch <= 70 || 97 <= ch <= 102))
  }

  /** lispExpressionIsNumber: what is no atom passes. */
  predicate IsNumber(t: Tree, hexadecimal: bool) {
    t.Atom? ==> forall i :: 0 <= i < |t.name| ==> IsNumeral(t.name[i], hexadecimal)
  }

  predicate Matches(m: Match, t: Tree, error: Error) {
    match m
    case MatchAny => true
    case MatchErrorParse => error != NoError
    case MatchNil => error == NoError && t == Null
    case MatchTrue => t == TRUTH_TREE
    case MatchAtom => t.Atom?
    case MatchAtomNumber(hexadecimal) => IsNumber(t, hexadecimal)
    case MatchAtomSymbol(symbol) => t == Atom(symbol)
    case MatchList => IsList(t)
    case MatchListNumber(hexadecimal) => IsList(t) && IsNumber(Car(t), hexadecimal)
    case MatchListSymbol(symbol) => IsList(t) && Car(t) == Atom(symbol)
    case MatchUserDefined => false
  }

  /** The first row from `from` on for this state that matches, or the number of rows. */
  function FirstMatch(rows: seq<Row>, from: nat, state: nat, t: Tree, error: Error): (i: nat)
    requires from <= |rows|
    ensures from <= i <= |rows|
    ensures i < |rows| ==> rows[i].state == state && Matches(rows[i].match_, t, error)
    ensures forall j :: from <= j < i ==> !(rows[j].state == state && Matches(rows[j].match_, t, error))
    decreases |rows| - from
  {
    if from == |rows| then from
    else if rows[from].state == state && Matches(rows[from].match_, t, error) then from
    else FirstMatch(rows, from + 1, state, t, error)
  }

  // ---------------------------------------------------------------- the machine as a function

  /**
   * What the outside sees: an action called for a message, called again, and the error report, which is
   * the action of the first row if that row is for the error state, and a line on the console if not.
   */
  datatype Effect =
    | Acted(action: Action, stream: Stream)
    | Resent(action: Action, stream: Stream)
    | ErrorActed(action: Action, stream: Stream)
    | ErrorPrinted

  datatype Condition = Condition(
    state: nat, retries: nat, timeout: nat, lastAction: Action, lastStream: Stream, log: seq<Effect>)

  datatype Event = Tick | Message(bytes: seq<byte>, stream: Stream)

  /**
   * The state an action returns; with the value read when called for a message, without it on a retry.
   * Actions are foreign code with a state of their own, so the answer may differ from call to call: the
   * number is that of the effects so far.
   */
  type Behaviour = (nat, Action, Stream, Option<Tree>) -> nat

  datatype Protocol = Protocol(rows: seq<Row>, act: Behaviour, world: World)

  /** aiko_state_machine. */
  function Launch(m: Protocol, action: Action, stream: Stream): Condition {
    Condition(m.act(0, action, stream, None), 0, TIMEOUT_COUNT, action, stream, [Acted(action, stream)])
  }

  function ErrorEffect(m: Protocol, stream: Stream): Effect {
    if m.rows != [] && m.rows[0].state == STATE_ERROR then ErrorActed(m.rows[0].action, stream) else ErrorPrinted
  }

  /** aiko_state_timer_handler. */
  function OnTick(m: Protocol, c: Condition): Condition {
    var c1 :=
      if c.timeout != 1 then c
      else if c.retries < RETRY_MAXIMUM then
        c.(retries := c.retries + 1, timeout := TIMEOUT_COUNT,
           state := m.act(|c.log|, c.lastAction, c.lastStream, None),
           log := c.log + [Resent(c.lastAction, c.lastStream)])
      else c.(retries := c.retries + 1, log := c.log + [ErrorEffect(m, c.lastStream)]);
    if c1.timeout > 0 then c1.(timeout := c1.timeout - 1) else c1
  }

  /** The row a message is matched by, in the state the machine is in. */
  function RowFor(m: Protocol, state: nat, message: seq<byte>): (i: nat)
    ensures i <= |m.rows|
  {
    var (t, s) := Read(m.world, message);
    FirstMatch(m.rows, 0, state, t, s.error)
  }

  /** aiko_state_lisp_message_handler. */
  function OnMessage(m: Protocol, c: Condition, message: seq<byte>, stream: Stream): Condition {
    var i := RowFor(m, c.state, message);
    if i == |m.rows| then c
    else
      var action := m.rows[i].action;
      Condition(m.act(|c.log|, action, stream, Some(Read(m.world, message).0)), 0, TIMEOUT_COUNT, action, stream,
                c.log + [Acted(action, stream)])
  }

  function Step(m: Protocol, c: Condition, event: Event): Condition {
    match event
    case Tick => OnTick(m, c)
    case Message(bytes, stream) => OnMessage(m, c, bytes, stream)
  }

  function RunEvents(m: Protocol, c: Condition, events: seq<Event>): Condition
    decreases |events|
  {
    if events == [] then c else RunEvents(m, Step(m, c, events[0]), events[1..])
  }

  // ---------------------------------------------------------------- the closed form

  /**
   * All that a run comes to: the action, the stream and the value of the last match, the effects up to and
   * with it, and the ticks since.
   */
  datatype Since = Since(action: Action, stream: Stream, data: Option<Tree>, before: seq<Effect>, ticks: nat)

  /** The retry counter `k` ticks after the last match. */
  function RetriesAt(k: nat): nat {
    if k == 0 then 0 else if (k - 1) / 19 < 6 then (k - 1) / 19 else 6
  }

  /** The countdown `k` ticks after the last match. */
  function TimeoutAt(k: nat): nat {
    if k == 0 then 20 else if k < 115 then 19 - (k - 1) % 19 else 0
  }

  /** The error report: the action of a first row for the error state, or a line on the console. */
  function Report(m: Protocol, stream: Stream): Effect {
    if |m.rows| > 0 && m.rows[0].state == 0 then ErrorActed(m.rows[0].action, stream) else ErrorPrinted
  }

  /** What tick number `k` after the last match does. */
  function EffectsAt(m: Protocol, k: nat, action: Action, stream: Stream): seq<Effect> {
    if k in {20, 39, 58, 77, 96} then [Resent(action, stream)]
    else if k == 115 then [Report(m, stream)]
    else []
  }

  /** What the first `k` ticks after the last match did. */
  function EffectsUpTo(m: Protocol, k: nat, action: Action, stream: Stream): seq<Effect> {
    if k == 0 then [] else EffectsUpTo(m, k - 1, action, stream) + EffectsAt(m, k, action, stream)
  }

  function LogOf(m: Protocol, x: Since): seq<Effect> {
    x.before + EffectsUpTo(m, x.ticks, x.action, x.stream)
  }

  /**
   * The state: what the action of the last match answered to its value, or what it answered to the last
   * resend, which carries none.
   */
  function StateOf(m: Protocol, x: Since): nat
    requires x.before != []
  {
    var resends := if RetriesAt(x.ticks) < 5 then RetriesAt(x.ticks) else 5;
    if resends == 0 then m.act(|x.before| - 1, x.action, x.stream, x.data)
    else m.act(|x.before| + resends - 1, x.action, x.stream, None)
  }

  /** The condition of a machine. */
  function Form(m: Protocol, x: Since): Condition
    requires x.before != []
  {
    Condition(StateOf(m, x), RetriesAt(x.ticks), TimeoutAt(x.ticks), x.action, x.stream, LogOf(m, x))
  }

  /** One event: a tick counts, a match begins anew with its own action, stream and value, and all else is nothing. */
  function Advance(m: Protocol, x: Since, event: Event): (y: Since)
    requires x.before != []
    ensures y.before != []
  {
    match event
    case Tick => x.(ticks := x.ticks + 1)
    case Message(bytes, stream) =>
      var i := RowFor(m, StateOf(m, x), bytes);
      if i == |m.rows| then x else Matched(m, i, bytes, stream, LogOf(m, x))
  }

  /** Just after row `i` has matched. */
  function Matched(m: Protocol, i: nat, message: seq<byte>, stream: Stream, log: seq<Effect>): (x: Since)
    requires i < |m.rows|
    ensures x.before != []
  {
    Since(m.rows[i].action, stream, Some(Read(m.world, message).0), log + [Acted(m.rows[i].action, stream)], 0)
  }

  function AdvanceAll(m: Protocol, x: Since, events: seq<Event>): (y: Since)
    requires x.before != []
    ensures y.before != []
    decreases |events|
  {
    if events == [] then x else AdvanceAll(m, Advance(m, x, events[0]), events[1..])
  }

  /** However many ticks pass without a match, there are at most five resends and one error report. */
  lemma {:induction false} EffectsBounded(m: Protocol, k: nat, action: Action, stream: Stream)
    ensures EffectsUpTo(m, k, action, stream) ==
            seq(if RetriesAt(k) < 5 then RetriesAt(k) else 5, _ => Resent(action, stream)) +
            (if k >= 115 then [Report(m, stream)] else [])
  {
    if k > 0 {
      EffectsBounded(m, k - 1, action, stream);
    }
  }

  /** When the timeout of a tick is due. */
  lemma DueAt(k: nat)
    ensures TimeoutAt(k) == 1 <==> k + 1 in {20, 39, 58, 77, 96, 115}
    ensures k + 1 in {20, 39, 58, 77, 96} ==> RetriesAt(k) < 5 && RetriesAt(k + 1) == RetriesAt(k) + 1
    ensures k + 1 in {20, 39, 58, 77, 96} ==> TimeoutAt(k + 1) == 19
    ensures k + 1 == 115 ==> RetriesAt(k) == 5 && RetriesAt(k + 1) == 6 && TimeoutAt(k + 1) == 0
    ensures k + 1 !in {20, 39, 58, 77, 96, 115} ==>
              RetriesAt(k + 1) == RetriesAt(k) && TimeoutAt(k + 1) == if TimeoutAt(k) > 0 then TimeoutAt(k) - 1 else 0
  {
    assert k > 0 ==> (k - 1) == 19 * ((k - 1) / 19) + (k - 1) % 19;
    assert k == 19 * (k / 19) + k % 19;
  }

  lemma TickForm(m: Protocol, x: Since)
    requires x.before != []
    ensures OnTick(m, Form(m, x)) == Form(m, x.(ticks := x.ticks + 1))
  {
    DueAt(x.ticks);
    EffectsBounded(m, x.ticks, x.action, x.stream);
    hide RetriesAt, TimeoutAt;
    var more := EffectsAt(m, x.ticks + 1, x.action, x.stream);
    assert LogOf(m, x) + more == LogOf(m, x.(ticks := x.ticks + 1));
    assert LogOf(m, x) + [] == LogOf(m, x);
  }

  /** A message that matches row `i` leads to that row's action on that message's stream, whatever was before. */
  lemma MatchForm(m: Protocol, c: Condition, message: seq<byte>, stream: Stream)
    requires RowFor(m, c.state, message) < |m.rows|
    ensures var i := RowFor(m, c.state, message);
            OnMessage(m, c, message, stream) == Form(m, Matched(m, i, message, stream, c.log))
  {
    var x := Matched(m, RowFor(m, c.state, message), message, stream, c.log);
    assert x.before + [] == x.before;
  }

  /**
   * In every run the condition of the machine, its state and its effects included, is a function of the
   * last match and the ticks since: the action of that match is called again at ticks 20, 39, 58, 77 and
   * 96, the error is reported once at 115, and nothing happens after.  Other messages change nothing.
   */
  lemma {:induction false} ClosedForm(m: Protocol, x: Since, events: seq<Event>)
    requires x.before != []
    ensures RunEvents(m, Form(m, x), events) == Form(m, AdvanceAll(m, x, events))
    decreases |events|
  {
    hide Form, AdvanceAll, Advance, OnTick, OnMessage, Matched;
    if events != [] {
      var y := Advance(m, x, events[0]);
      StepForm(m, x, events[0]);
      ClosedForm(m, y, events[1..]);
      AdvanceFirst(m, x, events);
    } else {
      AdvanceFirst(m, x, events);
    }
  }

  lemma AdvanceFirst(m: Protocol, x: Since, events: seq<Event>)
    requires x.before != []
    ensures AdvanceAll(m, x, events) == if events == [] then x else AdvanceAll(m, Advance(m, x, events[0]), events[1..])
  {
  }

  lemma StepForm(m: Protocol, x: Since, event: Event)
    requires x.before != []
    ensures Step(m, Form(m, x), event) == Form(m, Advance(m, x, event))
  {
    match event {
      case Tick => TickForm(m, x);
      case Message(bytes, stream) =>
        var i := RowFor(m, StateOf(m, x), bytes);
        if i < |m.rows| {
          MatchForm(m, Form(m, x), bytes, stream);
        }
    }
  }

  /** The same from the start of the machine, whose first action counts as a match without a value. */
  lemma ClosedFormFromStart(m: Protocol, action: Action, stream: Stream, events: seq<Event>)
    ensures RunEvents(m, Launch(m, action, stream), events) ==
            Form(m, AdvanceAll(m, Since(action, stream, None, [Acted(action, stream)], 0), events))
  {
    var x := Since(action, stream, None, [Acted(action, stream)], 0);
    assert x.before + [] == x.before;
    ClosedForm(m, x, events);
  }

  function Ticks(k: nat): seq<Event> {
    seq(k, _ => Tick)
  }

  lemma {:induction false} TicksAdvance(m: Protocol, x: Since, k: nat)
    requires x.before != []
    ensures AdvanceAll(m, x, Ticks(k)) == x.(ticks := x.ticks + k)
    decreases k
  {
    if k > 0 {
      TicksAdvance(m, x.(ticks := x.ticks + 1), k - 1);
      assert Ticks(k)[1..] == Ticks(k - 1);
    }
  }

  /** What a message that matches row `i`, and `k` ticks of silence after it, do, whatever was before. */
  lemma MatchThenSilence(m: Protocol, c: Condition, message: seq<byte>, stream: Stream, k: nat)
    requires RowFor(m, c.state, message) < |m.rows|
    ensures var action := m.rows[RowFor(m, c.state, message)].action;
            RunEvents(m, OnMessage(m, c, message, stream), Ticks(k)).log ==
            c.log + [Acted(action, stream)]
            + seq(if RetriesAt(k) < 5 then RetriesAt(k) else 5, _ => Resent(action, stream))
            + (if k >= 115 then [Report(m, stream)] else [])
  {
    var i := RowFor(m, c.state, message);
    var x := Matched(m, i, message, stream, c.log);
    MatchForm(m, c, message, stream);
    ClosedForm(m, x, Ticks(k));
    TicksAdvance(m, x, k);
    EffectsBounded(m, k, x.action, x.stream);
  }

  // ---------------------------------------------------------------- the machine as the source has it

  /** lispExpressionIsNumber. */
  method IsNumberCell(p: Lisp, r: Ref, hexadecimal: bool, ghost t: Tree) returns (b: bool)
    requires Sound(p) && Means(p, r, t)
    ensures b == IsNumber(t, hexadecimal)
  {
    hide Good;
    if r != NULL && SlotOf(p, r, t).AtomSlot? {
      var name := p.Name(r);
      for index := 0 to |name|
        invariant forall i :: 0 <= i < index ==> IsNumeral(name[i], hexadecimal)
      {
        if !IsNumeral(name[index], hexadecimal) {
          return false;
        }
      }
    }
    b := true;
  }

  /** The switch over match_type. */
  method MatchesCell(p: Lisp, r: Ref, m: Match, ghost t: Tree) returns (b: bool)
    requires Sound(p) && Means(p, r, t)
    ensures b == Matches(m, t, p.error)
  {
    hide Sound, Good;
    match m
    case MatchAny => b := true;
    case MatchErrorParse => b := p.error != NoError;
    case MatchNil => b := p.error == NoError && r == NULL;
    case MatchTrue => b := IsAtom(p, r, Ascii("#t"), t);
    case MatchAtom => b := r != NULL && SlotOf(p, r, t).AtomSlot?;
    case MatchAtomNumber(hexadecimal) => b := IsNumberCell(p, r, hexadecimal, t);
    case MatchAtomSymbol(symbol) => b := IsAtom(p, r, symbol, t);
    case MatchList => b := ListAt(p, r, t);
    case MatchListNumber(hexadecimal) =>
      b := false;
      if ListAt(p, r, t) {
        b := IsNumberCell(p, CarOf(p, r, t), hexadecimal, Car(t));
      }
    case MatchListSymbol(symbol) =>
      b := false;
      if ListAt(p, r, t) {
        b := IsAtom(p, CarOf(p, r, t), symbol, Car(t));
      }
    case MatchUserDefined => b := false;
  }

  /** What an action finds behind the pointer it is given. */
  method TreeAt(p: Lisp, r: Ref, ghost t: Tree) returns (u: Tree)
    requires Sound(p) && Means(p, r, t)
    ensures u == t
    decreases t
  {
    hide Sound, Good;
    if r == NULL {
      return Null;
    }
    if r == NIL {
      return Nil;
    }
    match SlotOf(p, r, t)
    case AtomSlot =>
      var name := NameOf(p, r, t);
      u := Atom(name);
    case ListSlot(_, _) =>
      var car := TreeAt(p, CarOf(p, r, t), Car(t));
      var cdr := TreeAt(p, CdrOf(p, r, t), Cdr(t));
      u := List(car, cdr);
    case LambdaSlot(arguments, expression) =>
      var a := TreeAt(p, arguments, t.arguments);
      var e := TreeAt(p, expression, t.expression);
      u := Lambda(a, e);
    case PrimitiveSlot(h) =>
      u := Prim(h);
  }

  method NameOf(p: Lisp, r: Ref, ghost t: Tree) returns (name: seq<byte>)
    requires Sound(p) && Means(p, r, t) && t.Atom?
    ensures name == t.name
  {
    name := p.Name(r);
  }

  /** A message that adds no binding leaves the pool at rest exactly as it was. */
  lemma SamePool(a: Pool, b: Pool)
    requires Good(a) && |a.cells| == a.mark && (forall i :: i in a.locked ==> i in a.spine)
    requires Good(b) && Grown(a, b, []) && b.env == a.env && |b.cells| == b.mark == a.mark
    ensures b == a
  {
    assert |b.cells| == |a.cells|;
    assert forall i :: i in b.locked ==> 0 <= i < |a.cells|;
    assert forall i :: i in a.locked ==> 0 <= i < |a.cells|;
    assert forall i :: i in b.locked <==> i in a.locked;
    assert b.locked == a.locked && b.cells == a.cells;
  }

  class Machine {
    const lisp: Lisp
    const rows: seq<Row>
    const act: Behaviour
    var now: nat
    var retryCount: nat
    var timeout: nat
    var lastAction: Action
    var lastStream: Stream
    /** The calls of actions and the error reports so far. */
    var log: seq<Effect>

    ghost predicate Valid()
      reads this, lisp, lisp.Repr
    {
      this !in lisp.Repr && rows != [] && AtRest(lisp)
    }

    ghost function Rules(): Protocol
      reads lisp
    {
      Protocol(rows, act, Quiet(lisp))
    }

    ghost function Snapshot(): Condition
      reads this
    {
      Condition(now, retryCount, timeout, lastAction, lastStream, log)
    }

    /** aiko_state_machine: the first action is called at once. */
    constructor (lisp: Lisp, rows: seq<Row>, act: Behaviour, action: Action, stream: Stream)
      requires AtRest(lisp) && rows != []
      ensures Valid() && this.lisp == lisp && this.rows == rows && this.act == act
      ensures Snapshot() == Launch(Rules(), action, stream)
    {
      this.lisp, this.rows, this.act := lisp, rows, act;
      lastAction, lastStream := action, stream;
      retryCount, timeout := 0, TIMEOUT_COUNT;
      now := STATE_IDLE;
      new;
      now := act(0, action, stream, None);
      log := [Acted(action, stream)];
    }

    /** aiko_state_timer_handler, every 0.1 seconds; the state the error action returns is ignored. */
    method TimerHandler()
      requires Valid()
      modifies this
      ensures Valid() && Snapshot() == OnTick(Rules(), old(Snapshot()))
    {
      if timeout == 1 {
        retryCount := retryCount + 1;
        if retryCount - 1 < RETRY_MAXIMUM {
          now := act(|log|, lastAction, lastStream, None);
          timeout := TIMEOUT_COUNT;
          log := log + [Resent(lastAction, lastStream)];
        } else if rows[0].state == STATE_ERROR {
          log := log + [ErrorActed(rows[0].action, lastStream)];
        } else {
          log := log + [ErrorPrinted];
        }
      }
      if timeout > 0 {
        timeout := timeout - 1;
      }
    }

    /**
     * aiko_state_lisp_message_handler.  Whatever the bytes are, the pool is afterwards, cell for cell,
     * what it was before.
     */
    method MessageHandler(message: seq<byte>, stream: Stream) returns (handled: bool)
      requires Valid()
      modifies this, lisp.Repr
      ensures Valid() && lisp.g == old(lisp.g)
      ensures Snapshot() == OnMessage(Rules(), old(Snapshot()), message, stream)
      ensures handled <==> RowFor(Rules(), old(now), message) < |rows|
    {
      hide Sound, Good, Grown, Encoding.Parse;
      ghost var a, w := lisp.g, Quiet(lisp);
      Boundary(lisp);
      var expression := Parser.ParseMessage(lisp, message);
      handled := Select(expression, stream, Read(w, message).0);
      ResetPool(lisp, a);
      Boundary(lisp);
      SamePool(a, lisp.g);
    }

    /** The loop over the state table, and what a match does. */
    method Select(expression: Ref, stream: Stream, ghost t: Tree) returns (handled: bool)
      requires Sound(lisp) && Means(lisp, expression, t) && this !in lisp.Repr
      modifies this
      ensures Sound(lisp)
      ensures var i := FirstMatch(rows, 0, old(now), t, lisp.error);
              && (handled <==> i < |rows|)
              && Snapshot() ==
                 if i == |rows| then old(Snapshot())
                 else Condition(act(|old(log)|, rows[i].action, stream, Some(t)), 0, TIMEOUT_COUNT,
                                rows[i].action, stream,
                                old(log) + [Acted(rows[i].action, stream)])
    {
      hide Sound, Good, Matches, Means;
      handled := false;
      var index := 0;
      ghost var first := FirstMatch(rows, 0, now, t, lisp.error);
      while index < |rows|
        invariant 0 <= index <= |rows| && FirstMatch(rows, index, now, t, lisp.error) == first
        invariant !handled && Snapshot() == old(Snapshot()) && Sound(lisp)
      {
        if rows[index].state == now {
          var matched := MatchesCell(lisp, expression, rows[index].match_, t);
          if matched {
            var data := TreeAt(lisp, expression, t);
            lastAction, lastStream := rows[index].action, stream;
            retryCount, timeout := 0, TIMEOUT_COUNT;
            now := act(|log|, lastAction, stream, Some(data));
            log := log + [Acted(lastAction, stream)];
            handled := true;
            return;
          }
        }
        index := index + 1;
      }
    }

    /** Any run: the machine goes where the function says, and the pool is as if nothing had happened. */
    method Drive(events: seq<Event>)
      requires Valid()
      modifies this, lisp.Repr
      ensures Valid() && lisp.g == old(lisp.g)
      ensures Snapshot() == RunEvents(Rules(), old(Snapshot()), events)
      decreases |events|
    {
      hide AtRest;
      if events != [] {
        match events[0] {
          case Tick =>
            TimerHandler();
          case Message(bytes, stream) =>
            var handled := MessageHandler(bytes, stream);
        }
        Drive(events[1..]);
      }
    }
  }
}
