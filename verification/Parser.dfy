/** The parser of src/common/lisp/parser.c over the reader of src/common/lisp/interface.c. */
module Parser {
  import opened Bytes
  import opened Trees
  import opened ExpressionPool
  import opened PoolInvariant
  import opened Format = Encoding

  /** lispBufferReader: the message and the index of the next byte. */
  class Reader {
    const input: seq<byte>
    var index: nat

    constructor (message: seq<byte>)
      ensures input == message && index == 0
    {
      input := message;
      index := 0;
    }

    /** fileGetC. */
    method GetCh() returns (ch: byte)
      requires index <= |input|
      modifies this
      ensures (ch, index) == GetC(input, old(index)) && index <= |input|
    {
      ch := EOF;
      if index < |input| {
        ch := input[index];
        index := index + 1;
      }
    }

    /** fileIsEmpty. */
    predicate IsEmpty()
      reads this
    {
      index == |input|
    }
  }

  ghost function Now(p: Lisp, reader: Reader): ParseState
    reads p, reader
  {
    ParseState(reader.index, p.error, |p.g.cells|, NameBytes(p.g.cells))
  }

  /** The pool has grown by parsing: nothing that was there has changed, the environment included. */
  twostate predicate OnlyGrown(p: Lisp)
    reads p, p.Repr
  {
    Sound(p) && Grown(old(p.g), p.g, []) && p.g.env == old(p.g.env) && p.g.mark == old(p.g.mark)
  }

  /** The digit loop of lispParseToken. */
  method ReadSize(reader: Reader, first: byte) returns (r: Scan)
    requires reader.index <= |reader.input|
    modifies reader
    ensures r == ScanSize(reader.input, old(reader.index), first, 0) && reader.index == r.pos
  {
    var ch := first;
    var size: nat := 0;
    while IsDigit(ch)
      invariant reader.index <= |reader.input| && 0 <= size < 256
      invariant ScanSize(reader.input, reader.index, ch, size) == ScanSize(reader.input, old(reader.index), first, 0)
      decreases |reader.input| - reader.index, if IsDigit(ch) then 1 else 0
    {
      size := (size * 10 + (ch - 48)) % 256;
      if reader.IsEmpty() {
        return Truncated(reader.index);
      }
      ch := reader.GetCh();
    }
    r := Scanned(size, ch, reader.index);
  }

  /** The byte loop of lispParseToken; bytes beyond the size limit are read and thrown away. */
  method ReadName(reader: Reader, size: nat) returns (complete: bool, token: array<byte>)
    requires reader.index <= |reader.input|
    modifies reader
    ensures complete <==> old(reader.index) + size <= |reader.input|
    ensures reader.index == if complete then old(reader.index) + size else |reader.input|
    ensures token.Length == ATOM_SIZE_LIMIT
    ensures complete && size <= ATOM_SIZE_LIMIT ==>
              token[..size] == reader.input[old(reader.index)..old(reader.index) + size]
  {
    token := new byte[ATOM_SIZE_LIMIT](_ => 0);
    var start := reader.index;
    for count := 0 to size
      invariant reader.index == start + count <= |reader.input| && fresh(token) && token.Length == ATOM_SIZE_LIMIT
      invariant count <= ATOM_SIZE_LIMIT ==> token[..count] == reader.input[start..start + count]
    {
      if reader.IsEmpty() {
        return false, token;
      }
      var ch := reader.GetCh();
      if count < ATOM_SIZE_LIMIT {
        token[count] := ch;
      }
    }
    complete := true;
  }

  /** What a token pointer stands for. */
  ghost predicate Stands(p: Lisp, r: Ref, token: Token)
    reads p
  {
    match token
    case NoToken => r == NULL
    case Open => r == PARENTHESIS_OPEN
    case Close => r == PARENTHESIS_CLOSE
    case Name(name) => r > PARENTHESIS_CLOSE && Means(p, r, Atom(name))
  }

  /** lispCreateAtom. */
  method MakeAtom(p: Lisp, name: seq<byte>, ghost s: ParseState) returns (r: Ref)
    requires Sound(p) && s.error == p.error && s.cells == |p.g.cells| && s.bytes == NameBytes(p.g.cells)
    requires |name| <= ATOM_SIZE_LIMIT
    modifies p.Repr
    ensures OnlyGrown(p)
    ensures var (token, s') := AllocAtom(name, s);
            && Stands(p, r, token) && s'.pos == s.pos
            && s'.error == p.error && s'.cells == |p.g.cells| && s'.bytes == NameBytes(p.g.cells)
  {
    hide Lisp.Valid, Good, Grown;
    ghost var p0 := p.g;
    SoundGrown(p);
    r := p.CreateAtom(name);
    if r != NULL {
      Pushed(p0, p0, p.g, ATOM(name));
    }
  }

  /** lispCreateList(car, cdr). */
  method MakeList(p: Lisp, car: Ref, cdr: Ref, ghost x: Tree, ghost y: Tree, ghost s: ParseState) returns (r: Ref)
    requires Sound(p) && s.error == p.error && s.cells == |p.g.cells| && s.bytes == NameBytes(p.g.cells)
    requires Means(p, car, x) && Means(p, cdr, y)
    modifies p.Repr
    ensures OnlyGrown(p)
    ensures var (t, s') := AllocList(x, y, s);
            && Means(p, r, t) && s'.pos == s.pos
            && s'.error == p.error && s'.cells == |p.g.cells| && s'.bytes == NameBytes(p.g.cells)
  {
    hide Lisp.Valid, Good, Grown, NameBytes, Kept;
    ghost var p0 := p.g;
    SoundGrown(p);
    r := p.CreateList(car, cdr);
    if r != NULL {
      Pushed(p0, p0, p.g, LIST(car, cdr));
      DenotesKept(p0.cells, p0.locked, p.g.cells, p.g.locked, car, x);
      DenotesKept(p0.cells, p0.locked, p.g.cells, p.g.locked, cdr, y);
    }
  }

  lemma SoundGrown(p: Lisp)
    requires Sound(p)
    ensures Good(p.g) && Grown(p.g, p.g, []) && p.g.spine != []
    ensures 4 <= |p.g.cells| && p.g.mark <= |p.g.cells|
    ensures Means(p, PARENTHESIS_CLOSE, Atom([CLOSE]))
  {
    GrownRefl(p.g);
    assert Ascii(")") == [CLOSE];
  }

  /** lispError and lispErrorMessage are set. */
  method Fail(p: Lisp, error: Error)
    requires Sound(p)
    modifies p.Repr
    ensures Sound(p) && p.error == error && p.g == old(p.g)
  {
    p.error := error;
  }

  /** lispParseToken. */
  method ParseToken(p: Lisp, reader: Reader) returns (r: Ref)
    requires Sound(p) && reader !in p.Repr && reader.index <= |reader.input|
    modifies p.Repr, reader
    ensures OnlyGrown(p) && reader.index <= |reader.input|
    ensures var (token, s) := Format.ParseToken(reader.input, old(Now(p, reader)));
            Now(p, reader) == s && Stands(p, r, token)
  {
    hide Sound, Good, Grown;
    SoundGrown(p);
    var ch := reader.GetCh();
    if ch == NEWLINE {
      ch := reader.GetCh();
    }
    if reader.IsEmpty() {
      Fail(p, EndOfInput);
      return NULL;
    }
    if ch == OPEN {
      return PARENTHESIS_OPEN;
    }
    if ch == CLOSE {
      return PARENTHESIS_CLOSE;
    }
    var scan := ReadSize(reader, ch);
    if scan.Truncated? {
      Fail(p, TokenTruncated);
      return NULL;
    }
    if scan.ch != COLON {
      Fail(p, NotAToken);
      return NULL;
    }
    r := ParseName(p, reader, scan.size);
  }

  /** lispParseToken from the colon on. */
  method ParseName(p: Lisp, reader: Reader, size: nat) returns (r: Ref)
    requires Sound(p) && reader !in p.Repr && reader.index <= |reader.input|
    modifies p.Repr, reader
    ensures OnlyGrown(p) && reader.index <= |reader.input|
    ensures var (token, s) := NameToken(reader.input, old(Now(p, reader)), size);
            Now(p, reader) == s && Stands(p, r, token)
  {
    hide Sound, Good, Grown;
    SoundGrown(p);
    ghost var s0 := Now(p, reader);
    if size > ATOM_SIZE_LIMIT {
      Fail(p, LimitToken);
    }
    var complete, token := ReadName(reader, size);
    if !complete {
      Fail(p, TokenTruncated);
      return NULL;
    }
    if p.error != NoError {
      return NULL;
    }
    r := MakeAtom(p, token[..size], s0.(pos := s0.pos + size));
  }

  /** lispParseList. */
  method ParseList(p: Lisp, reader: Reader) returns (r: Ref)
    requires Sound(p) && reader !in p.Repr && reader.index <= |reader.input|
    modifies p.Repr, reader
    ensures OnlyGrown(p) && reader.index <= |reader.input|
    ensures var (t, s) := Format.ParseList(reader.input, old(Now(p, reader)));
            Now(p, reader) == s && Means(p, r, t)
    decreases |reader.input| - reader.index, 1
  {
    hide Sound, Good, Grown, Format.ParseToken;
    ghost var s0 := Now(p, reader);
    r := ParseToken(p, reader);
    if r != NULL {
      if r == PARENTHESIS_CLOSE {
        r := NULL;
      } else {
        ghost var p1, token := p.g, Format.ParseToken(reader.input, s0).0;
        r := ParseMore(p, reader, r, token);
        GrownTrans(old(p.g), p1, p.g, []);
      }
    }
  }

  /** lispParseList after the first token of an element: the rest of the element, the rest of the list. */
  method ParseMore(p: Lisp, reader: Reader, first: Ref, ghost token: Token) returns (r: Ref)
    requires Sound(p) && reader !in p.Repr && reader.index <= |reader.input|
    requires Stands(p, first, token) && (token.Open? || token.Name?)
    modifies p.Repr, reader
    ensures OnlyGrown(p) && reader.index <= |reader.input|
    ensures var (t, s) := Rest(reader.input, token, old(Now(p, reader)));
            Now(p, reader) == s && Means(p, r, t)
    decreases |reader.input| - reader.index, 2
  {
    hide Sound, Good, Grown, Format.ParseList;
    var expression := first;
    ghost var car, s1 := Null, Now(p, reader);
    SoundGrown(p);
    if first == PARENTHESIS_OPEN {
      expression := ParseList(p, reader);
      car := Format.ParseList(reader.input, s1).0;
    } else {
      car := Atom(token.name);
    }
    ghost var p2, s2 := p.g, Now(p, reader);
    var list := ParseList(p, reader);
    ghost var p3, s3 := p.g, Now(p, reader);
    GrownKept(p2, p3, []);
    DenotesKept(p2.cells, p2.locked, p3.cells, p3.locked, expression, car);
    r := MakeList(p, expression, list, car, Format.ParseList(reader.input, s2).0, s3);
    GrownTrans(old(p.g), p2, p3, []);
    GrownTrans(old(p.g), p3, p.g, []);
  }

  /** The value of a list from the token of its first element on. */
  ghost function Rest(input: seq<byte>, token: Token, s: ParseState): (Tree, ParseState)
    requires s.pos <= |input| && (token.Open? || token.Name?)
  {
    var (car, s1) := if token.Open? then Format.ParseList(input, s) else (Atom(token.name), s);
    var (cdr, s2) := Format.ParseList(input, s1);
    AllocList(car, cdr, s2)
  }

  /** lispParse. */
  method Parse(p: Lisp, reader: Reader) returns (r: Ref)
    requires Sound(p) && reader !in p.Repr && reader.index <= |reader.input|
    modifies p.Repr, reader
    ensures OnlyGrown(p) && reader.index <= |reader.input|
    ensures var (t, s) := Format.Parse(reader.input, old(Now(p, reader)));
            Now(p, reader) == s && Means(p, r, t)
  {
    hide Sound, Good, Grown, Format.ParseToken, Format.ParseList;
    r := ParseToken(p, reader);
    ghost var p1 := p.g;
    SoundGrown(p);
    if r != NULL && r == PARENTHESIS_OPEN {
      r := ParseList(p, reader);
      GrownTrans(old(p.g), p1, p.g, []);
    }
  }

  /** lisp_message_parser. */
  method ParseMessage(p: Lisp, message: seq<byte>) returns (r: Ref)
    requires Sound(p)
    modifies p.Repr
    ensures OnlyGrown(p)
    ensures var (t, s) := Format.Parse(message, ParseState(0, NoError, old(|p.g.cells|), old(NameBytes(p.g.cells))));
            && Means(p, r, t) && p.error == s.error
            && |p.g.cells| == s.cells && NameBytes(p.g.cells) == s.bytes
  {
    hide Good, Grown, Format.Parse;
    Fail(p, NoError);
    var reader := new Reader(message);
    r := Parse(p, reader);
  }
}
