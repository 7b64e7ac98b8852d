/**
 * The Lisp server of src/common/lisp/interface.c: one message in, one reply out, and both pools rolled
 * back to the bookmark.
 */
module Interface {
  import opened Bytes
  import opened Trees
  import opened Semantics
  import opened ExpressionPool
  import opened PoolInvariant
  import opened Encoding
  import opened EmitLimit
  import opened Evaluator
  import opened Emitter
  import Parser

  const WRITER_BUFFER_SIZE: nat := 256
  /** The buffer is declared as that many pointers, of four bytes each on the ESP8266. */
  const WRITER_BUFFER_BYTES: nat := 1024
  const CRLF: seq<byte> := [13, 10]

  function ErrorMessage(error: Error): seq<byte> {
    match error
    case NoError => Ascii("(5:error4:none)\r\n")
    case EndOfInput => Ascii("(5:error12:end of input)\r\n")
    case LimitEmit => Ascii("(5:error17:emit output limit)\r\n")
    case LimitExpressions => Ascii("(5:error16:expression limit)\r\n")
    case LimitMemory => Ascii("(5:error12:memory limit)\r\n")
    case LimitToken => Ascii("(5:error13:atom size >64)\r\n")
    case TokenTruncated => Ascii("(5:error15:token truncated)\r\n")
    case NotAToken => Ascii("(5:error17:must be 'n:token')\r\n")
  }

  // ---------------------------------------------------------------- what a message does

  /** Reading a message from a world at rest. */
  function Read(w: World, message: seq<byte>): (Tree, ParseState) {
    Parse(message, ParseState(0, NoError, w.cells, w.bytes))
  }

  function Reading(w: World, s: ParseState): World {
    w.(cells := s.cells, bytes := s.bytes, error := s.error)
  }

  /** The evaluation of a message that could be read. */
  function Run(w: World, message: seq<byte>): Outcome {
    var (t, s) := Read(w, message);
    Eval(t, Reading(w, s))
  }

  /** The emission of the value is refused in time, or ends within the writer buffer. */
  predicate Writable(t: Tree) {
    Refused(t, WRITER_BUFFER_SIZE) || |Encode(t)| <= WRITER_BUFFER_BYTES
  }

  /** The ways in which a message can make the source go wrong. */
  datatype Fault =
    | NoFault
    | WildAccess       // the evaluation reads or writes through NULL or the wrong member of the union
    | NullWritten      // it gives NULL without an error, and the line end is written through NULL
    | BufferPassed     // its value is written past the end of the writer buffer

  function FaultOf(w: World, message: seq<byte>): Fault {
    if Read(w, message).1.error != NoError then NoFault
    else
      match Run(w, message)
      case Stuck => WildAccess
      case Value(v, w1) =>
        if w1.error != NoError then NoFault
        else if v == Null then NullWritten
        else if !Writable(v) then BufferPassed
        else NoFault
  }

  /** Every message is answered, but for those with a fault. */
  predicate Served(w: World, message: seq<byte>) {
    FaultOf(w, message) == NoFault
  }

  /** The error a message ends with: in reading, in evaluating, or in writing. */
  function Verdict(w: World, message: seq<byte>): Error
    requires Served(w, message)
  {
    var error := Read(w, message).1.error;
    if error != NoError then error
    else
      var o := Run(w, message);
      if o.world.error != NoError then o.world.error
      else if Refused(o.value, WRITER_BUFFER_SIZE) then LimitEmit
      else NoError
  }

  /** lispReset in terms of the world; the next message begins without an error. */
  function Rest(w: World): World {
    w.(cells := w.markCells, bytes := w.markBytes, error := NoError)
  }

  /** The world after a message. */
  function Next(w: World, message: seq<byte>): World
    requires Served(w, message)
  {
    if Read(w, message).1.error != NoError then Rest(w) else Rest(Run(w, message).world)
  }

  /** An encoding, and a line end if the writer buffer's nominal size leaves room for it. */
  function Line(code: seq<byte>): seq<byte> {
    if |code| < WRITER_BUFFER_SIZE - 1 then code + CRLF else code
  }

  /** The bytes sent back. */
  function Reply(w: World, message: seq<byte>): seq<byte>
    requires Served(w, message)
  {
    var error := Verdict(w, message);
    if error != NoError then ErrorMessage(error) else Line(Encode(Run(w, message).value))
  }

  // ---------------------------------------------------------------- the handler

  /** At a message boundary: nothing lives above the bookmark, and only the environment is locked. */
  ghost predicate AtRest(p: Lisp)
    reads p, p.Repr
  {
    && Sound(p) && |p.g.cells| == p.g.mark
    && forall i :: i in p.g.locked ==> i in p.g.spine
  }

  lemma ResetLocks(a: Pool, p: Pool)
    requires Grown(a, p, []) && (forall i :: i in a.locked ==> i in a.spine)
    ensures p.spine != [] && p.spine[0] == a.spine[0]
    ensures forall i :: i in p.locked ==> i in p.spine
  {
    forall i | i in p.locked && i in a.locked
      ensures i in p.spine
    {
      var k :| 0 <= k < |a.spine| && a.spine[k] == i;
      assert p.spine[k] == i;
    }
  }

  lemma ResetGrown(a: Pool, p: Pool, p': Pool)
    requires |a.cells| == a.mark && Grown(a, p, []) && p.mark <= |p.cells| && p' == p.(cells := p.cells[..p.mark])
    ensures Grown(a, p', [])
  {
  }

  lemma ResetGood(p: Pool, p': Pool)
    requires Good(p) && p' == p.(cells := p.cells[..p.mark])
    requires forall i :: i in p.locked ==> i in p.spine
    ensures Good(p') && p'.spine == p.spine
  {
    EnvironmentChain(p);
    assert forall i :: i in p.locked ==> i < p.mark;
    GoodKept(p, p');
  }

  /** The world at a message boundary; an error that is left over does not count. */
  ghost function Quiet(p: Lisp): World
    reads p
  {
    p.State().(error := NoError)
  }

  /** lispReset after the work on a message is done. */
  method ResetPool(p: Lisp, ghost a: Pool)
    requires Sound(p) && Grown(a, p.g, []) && Good(a)
    requires |a.cells| == a.mark && (forall i :: i in a.locked ==> i in a.spine)
    modifies p.Repr
    ensures AtRest(p) && Grown(a, p.g, []) && Quiet(p) == Rest(old(p.State())) && p.error == old(p.error)
    ensures p.g.mark == old(p.g.mark) && p.g.env == old(p.g.env)
  {
    hide Lisp.Valid, Good, Grown;
    ghost var p0 := p.g;
    SoundMark(p);
    p.Reset();
    ResetLocks(a, p0);
    ResetGrown(a, p0, p.g);
    ResetGood(p0, p.g);
    assert p.g.cells[..p.g.mark] == p.g.cells;
  }

  lemma SoundMark(p: Lisp)
    requires Sound(p)
    ensures p.g.mark <= |p.g.cells| && Good(p.g)
  {
  }

  /** Whatever a pointer into the pool means has names the parser would take. */
  lemma {:induction false} MeansShort(p: Lisp, r: Ref, t: Tree)
    requires Sound(p) && Means(p, r, t)
    ensures ShortNames(t)
    decreases t
  {
    match t {
      case List(a, d) =>
        MeansShort(p, p.g.cells[r].car, a);
        MeansShort(p, p.g.cells[r].cdr, d);
      case Lambda(a, e) =>
        MeansShort(p, p.g.cells[r].arguments, a);
        MeansShort(p, p.g.cells[r].expression, e);
      case _ =>
    }
  }

  /** lisp_message_handler. */
  method HandleMessage(p: Lisp, message: seq<byte>) returns (handled: bool, output: seq<byte>)
    requires AtRest(p) && Served(Quiet(p), message)
    modifies p.Repr
    ensures AtRest(p) && Grown(old(p.g), p.g, [])
    ensures Quiet(p) == Next(old(Quiet(p)), message)
    ensures output == Reply(old(Quiet(p)), message)
    ensures p.error == Verdict(old(Quiet(p)), message) && (handled <==> p.error == NoError)
  {
    hide Sound, Good, Grown, Eval, Encoding.Parse, Encode, Refused;
    ghost var a, w := p.g, Quiet(p);
    Boundary(p);
    handled, output := false, [];
    var expression := Parser.ParseMessage(p, message);
    ghost var t, s := Read(w, message).0, Read(w, message).1;
    SameMark(a, p.g);
    assert p.State() == Reading(w, s);
    if p.error == NoError {
      ghost var b := p.g;
      expression := Evaluate(p, expression, t);
      GrownTrans(a, b, p.g, []);
      ghost var v := Eval(t, Reading(w, s)).value;
      if p.error == NoError && expression != NULL {
        MeansShort(p, expression, v);
        output := Emit(p, expression, WRITER_BUFFER_SIZE, v, WRITER_BUFFER_SIZE);
        handled := p.error == NoError;
      }
    }
    if p.error != NoError {
      output := ErrorMessage(p.error);
    } else if |output| < WRITER_BUFFER_SIZE - 1 {
      output := output + CRLF;
    }
    ResetPool(p, a);
  }

  /** While the bookmark stays, so does everything below it. */
  lemma SameMark(a: Pool, b: Pool)
    requires Good(a) && Grown(a, b, []) && a.env == b.env && a.mark == b.mark
    ensures b.mark == a.mark <= |a.cells| <= |b.cells| && b.cells[..b.mark] == a.cells[..a.mark]
  {
  }

  lemma Boundary(p: Lisp)
    requires AtRest(p)
    ensures Sound(p) && Good(p.g) && Grown(p.g, p.g, []) && Quiet(p) == Rest(p.State())
    ensures |p.g.cells| == p.g.mark && p in p.Repr
  {
    GrownRefl(p.g);
    assert p.g.cells[..p.g.mark] == p.g.cells;
  }
}
