/**
 * The wire format: canonical S-expressions (draft-rivest-sexp-00, section 6.1, with the verbatim
 * strings of section 4.1; later RFC 9804).
 *
 * `Encode` is what the emitter writes, `Parse` is what the parser of src/common/lisp/parser.c reads,
 * and the theorems say how far each undoes the other.
 */
module Encoding {
  import opened Bytes
  import opened Trees
  import opened Semantics

  const OPEN: byte := 40
  const CLOSE: byte := 41
  const COLON: byte := 58
  const NEWLINE: byte := 10
  const EOF: byte := 255

  predicate IsDigit(ch: byte) {
    48 <= ch <= 57
  }

  // ---------------------------------------------------------------- encoding

  function Decimal(n: nat): (r: seq<byte>)
    ensures r != [] && forall i :: 0 <= i < |r| ==> IsDigit(r[i])
  {
    if n < 10 then [48 + n] else Decimal(n / 10) + [48 + n % 10]
  }

  /** The canonical encoding; a NULL has none. */
  function Encode(t: Tree): seq<byte> {
    match t
    case Null => []
    case Nil => [OPEN, CLOSE]
    case Atom(name) => Decimal(|name|) + [COLON] + name
    case List(a, d) => [OPEN] + (Encode(a) + EncodeRest(d)) + [CLOSE]
    case Lambda(a, e) => Ascii("(6:lambda") + Encode(a) + Encode(e) + [CLOSE]
    case Prim(_) => Ascii("(9:primitive)")
  }

  lemma EncodeNull()
    ensures Encode(Null) == []
  {
  }

  /** The elements of a list without the parentheses. */
  function EncodeRest(t: Tree): seq<byte> {
    match t
    case List(a, d) => Encode(a) + EncodeRest(d)
    case _ => []
  }

  /** Lambdas and primitives as the lists they are written as. */
  function Plain(t: Tree): Tree {
    match t
    case List(a, d) => List(Plain(a), if d.List? then Plain(d) else Null)
    case Lambda(a, e) => List(Atom(Ascii("lambda")), List(Plain(a), List(Plain(e), Null)))
    case Prim(_) => List(Atom(Ascii("primitive")), Null)
    case _ => t
  }

  predicate IsPlain(t: Tree) {
    match t
    case List(a, d) => IsPlain(a) && IsPlain(d)
    case Lambda(_, _) => false
    case Prim(_) => false
    case _ => true
  }

  /** Every atom is short enough for the parser. */
  predicate ShortNames(t: Tree) {
    match t
    case Atom(name) => |name| <= ATOM_SIZE_LIMIT
    case List(a, d) => ShortNames(a) && ShortNames(d)
    case Lambda(a, e) => ShortNames(a) && ShortNames(e)
    case _ => true
  }

  /** A plain tree read back: NULL elements are gone, and a list without elements is NULL. */
  function Norm(t: Tree): Tree {
    match t
    case Atom(_) => t
    case _ => NormRest(t)
  }

  function NormRest(t: Tree): Tree {
    match t
    case List(a, d) =>
      if a.Null? then NormRest(d) else List(if a.Atom? then a else NormRest(a), NormRest(d))
    case _ => Null
  }

  /** Pool cells and heap bytes a parse of the tree takes. */
  function CellsOf(t: Tree): nat {
    match t
    case Atom(_) => 1
    case List(a, d) => CellsOf(a) + 1 + CellsOf(d)
    case _ => 0
  }

  function BytesOf(t: Tree): nat {
    match t
    case Atom(name) => |name|
    case List(a, d) => BytesOf(a) + BytesOf(d)
    case _ => 0
  }

  // ---------------------------------------------------------------- parsing

  /** The reader index, the pending error, and how much of the pools is in use. */
  datatype ParseState = ParseState(pos: nat, error: Error, cells: nat, bytes: nat)

  datatype Token = NoToken | Open | Close | Name(name: seq<byte>)

  /** fileGetC: at the end it yields EOF and stays. */
  function GetC(input: seq<byte>, pos: nat): (byte, nat) {
    if pos < |input| then (input[pos], pos + 1) else (EOF, pos)
  }

  datatype Scan = Scanned(size: nat, ch: byte, pos: nat) | Truncated(pos: nat)

  /** The digit loop of lispParseToken; the size is an 8-bit number. */
  function ScanSize(input: seq<byte>, pos: nat, ch: byte, size: nat): (r: Scan)
    requires pos <= |input|
    ensures pos <= r.pos <= |input|
    decreases |input| - pos
  {
    if !IsDigit(ch) then Scanned(size, ch, pos)
    else if pos == |input| then Truncated(pos)
    else ScanSize(input, pos + 1, input[pos], (size * 10 + (ch - 48)) % 256)
  }

  /** lispCreateAtom in terms of the pools' counters. */
  function AllocAtom(name: seq<byte>, s: ParseState): (Token, ParseState) {
    if s.cells >= EXPRESSION_LIMIT then (NoToken, s.(error := LimitExpressions))
    else if s.bytes + |name| > HEAP_SIZE then (NoToken, s.(error := LimitMemory))
    else (Name(name), s.(cells := s.cells + 1, bytes := s.bytes + |name|))
  }

  /** lispParseToken. */
  function ParseToken(input: seq<byte>, s: ParseState): (r: (Token, ParseState))
    requires s.pos <= |input|
    ensures s.pos <= r.1.pos <= |input|
    ensures !r.0.NoToken? ==> s.pos < r.1.pos
  {
    var (c, p) := GetC(input, s.pos);
    var (ch, pos) := if c == NEWLINE then GetC(input, p) else (c, p);
    if pos == |input| then (NoToken, s.(pos := pos, error := EndOfInput))
    else if ch == OPEN then (Open, s.(pos := pos))
    else if ch == CLOSE then (Close, s.(pos := pos))
    else
      match ScanSize(input, pos, ch, 0)
      case Truncated(q) => (NoToken, s.(pos := q, error := TokenTruncated))
      case Scanned(size, ch, q) =>
        if ch != COLON then (NoToken, s.(pos := q, error := NotAToken)) else NameToken(input, s.(pos := q), size)
  }

  /** lispParseToken from the colon on: a name too long is read over. */
  function NameToken(input: seq<byte>, s: ParseState, size: nat): (r: (Token, ParseState))
    requires s.pos <= |input|
    ensures s.pos <= r.1.pos <= |input|
  {
    if s.pos + size > |input| then (NoToken, s.(pos := |input|, error := TokenTruncated))
    else
      var s1 := s.(pos := s.pos + size, error := if size > ATOM_SIZE_LIMIT then LimitToken else s.error);
      if s1.error != NoError then (NoToken, s1) else AllocAtom(input[s.pos..s.pos + size], s1)
  }

  /** lispCreateList(car, cdr) in terms of the pool's counter. */
  function AllocList(car: Tree, cdr: Tree, s: ParseState): (Tree, ParseState) {
    if s.cells >= EXPRESSION_LIMIT then (Null, s.(error := LimitExpressions))
    else (List(car, cdr), s.(cells := s.cells + 1))
  }

  /** lispParseList; it goes on after an error, so the second recursive call always happens. */
  function ParseList(input: seq<byte>, s: ParseState): (r: (Tree, ParseState))
    requires s.pos <= |input|
    ensures s.pos <= r.1.pos <= |input|
    decreases |input| - s.pos
  {
    var (token, s1) := ParseToken(input, s);
    match token
    case NoToken => (Null, s1)
    case Close => (Null, s1)
    case Open =>
      var (car, s2) := ParseList(input, s1);
      var (cdr, s3) := ParseList(input, s2);
      AllocList(car, cdr, s3)
    case Name(name) =>
      var (cdr, s2) := ParseList(input, s1);
      AllocList(Atom(name), cdr, s2)
  }

  /** lispParse; a lone closing parenthesis is returned as the atom it is held in. */
  function Parse(input: seq<byte>, s: ParseState): (r: (Tree, ParseState))
    requires s.pos <= |input|
    ensures s.pos <= r.1.pos <= |input|
  {
    var (token, s1) := ParseToken(input, s);
    match token
    case NoToken => (Null, s1)
    case Close => (Atom([CLOSE]), s1)
    case Open => ParseList(input, s1)
    case Name(name) => (Atom(name), s1)
  }
}
