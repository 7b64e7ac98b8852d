/** How far the parser and the emitter undo each other. */
module RoundTrip {
  import opened Bytes
  import opened Trees
  import opened Semantics
  import opened Encoding

  /** From `pos` on, the input reads `x` and then `tail`. */
  ghost predicate At(input: seq<byte>, pos: nat, x: seq<byte>, tail: seq<byte>) {
    pos <= |input| && input[pos..] == x + tail
  }

  lemma AtSplit(input: seq<byte>, pos: nat, x: seq<byte>, y: seq<byte>, tail: seq<byte>)
    requires At(input, pos, x + y, tail)
    ensures At(input, pos, x, y + tail)
    ensures At(input, pos + |x|, y, tail)
  {
    assert x + y + tail == x + (y + tail);
    assert input[pos + |x|..] == input[pos..][|x|..];
  }

  /** The size of a short name is one digit or two. */
  predicate TwoDigits(n: nat, a: nat, b: nat) {
    a < 10 && b < 10 && n == 10 * a + b && Decimal(n) == [48 + a, 48 + b]
  }

  lemma DecimalShort(n: nat)
    requires n < 100
    ensures if n < 10 then Decimal(n) == [48 + n]
            else exists a: nat, b: nat :: TwoDigits(n, a, b)
  {
    if n >= 10 {
      var a, b := n / 10, n % 10;
      assert Decimal(a) == [48 + a];
      assert TwoDigits(n, a, b);
    }
  }

  lemma AtByte(input: seq<byte>, pos: nat, x: seq<byte>, tail: seq<byte>, i: nat)
    requires At(input, pos, x, tail) && i < |x|
    ensures pos + i < |input| && input[pos + i] == x[i]
  {
    assert input[pos..][i] == (x + tail)[i];
  }

  lemma ScanStep(input: seq<byte>, pos: nat, ch: byte, size: nat)
    requires pos < |input| && IsDigit(ch) && size * 10 + (ch - 48) < 256
    ensures ScanSize(input, pos, ch, size) == ScanSize(input, pos + 1, input[pos], size * 10 + (ch - 48))
  {
  }

  lemma ScanStop(input: seq<byte>, pos: nat, size: nat)
    requires pos <= |input|
    ensures ScanSize(input, pos, COLON, size) == Scanned(size, COLON, pos)
  {
  }

  lemma ScanOne(input: seq<byte>, pos: nat, n: nat, tail: seq<byte>)
    requires n < 10 && At(input, pos, [48 + n, COLON], tail)
    ensures pos + 1 < |input| && input[pos] == 48 + n
    ensures ScanSize(input, pos + 1, input[pos], 0) == Scanned(n, COLON, pos + 2)
  {
    hide ScanSize, At;
    AtByte(input, pos, [48 + n, COLON], tail, 0);
    AtByte(input, pos, [48 + n, COLON], tail, 1);
    ScanStep(input, pos + 1, input[pos], 0);
    ScanStop(input, pos + 2, n);
  }

  lemma ScanTwo(input: seq<byte>, pos: nat, a: nat, b: nat, tail: seq<byte>)
    requires a < 10 && b < 10 && At(input, pos, [48 + a, 48 + b, COLON], tail)
    ensures pos + 2 < |input| && input[pos] == 48 + a
    ensures ScanSize(input, pos + 1, input[pos], 0) == Scanned(10 * a + b, COLON, pos + 3)
  {
    hide ScanSize, At;
    AtByte(input, pos, [48 + a, 48 + b, COLON], tail, 0);
    AtByte(input, pos, [48 + a, 48 + b, COLON], tail, 1);
    AtByte(input, pos, [48 + a, 48 + b, COLON], tail, 2);
    ScanStep(input, pos + 1, input[pos], 0);
    ScanStep(input, pos + 2, input[pos + 1], a);
    ScanStop(input, pos + 3, 10 * a + b);
  }

  lemma ScanDecimal(input: seq<byte>, pos: nat, n: nat, tail: seq<byte>)
    requires n < 100 && At(input, pos, Decimal(n) + [COLON], tail)
    ensures pos + |Decimal(n)| < |input| && IsDigit(input[pos])
    ensures ScanSize(input, pos + 1, input[pos], 0) == Scanned(n, COLON, pos + |Decimal(n)| + 1)
  {
    hide ScanSize, Decimal, At;
    DecimalShort(n);
    if n < 10 {
      assert Decimal(n) + [COLON] == [48 + n, COLON];
      ScanOne(input, pos, n, tail);
    } else {
      var a: nat, b: nat :| TwoDigits(n, a, b);
      assert Decimal(n) + [COLON] == [48 + a, 48 + b, COLON];
      ScanTwo(input, pos, a, b, tail);
    }
  }

  /** The counters after reading a tree. */
  function After(s: ParseState, length: nat, error: Error, t: Tree): ParseState {
    ParseState(s.pos + length, error, s.cells + CellsOf(t), s.bytes + BytesOf(t))
  }

  predicate Room(s: ParseState, t: Tree) {
    s.cells + CellsOf(t) <= EXPRESSION_LIMIT && s.bytes + BytesOf(t) <= HEAP_SIZE
  }

  lemma TokenName(input: seq<byte>, s: ParseState, name: seq<byte>, tail: seq<byte>)
    requires At(input, s.pos, Encode(Atom(name)), tail) && s.error == NoError
    requires |name| <= ATOM_SIZE_LIMIT && Room(s, Atom(name))
    ensures ParseToken(input, s) == (Name(name), After(s, |Encode(Atom(name))|, NoError, Atom(name)))
  {
    hide At, ScanSize, Decimal;
    var n := |name|;
    AtSplit(input, s.pos, Decimal(n) + [COLON], name, tail);
    ScanDecimal(input, s.pos, n, name + tail);
    var q := s.pos + |Decimal(n)| + 1;
    assert input[q..q + n] == input[q..][..n] == (name + tail)[..n] == name;
  }

  lemma TokenMark(input: seq<byte>, s: ParseState, mark: byte, tail: seq<byte>)
    requires At(input, s.pos, [mark], tail) && (mark == OPEN || mark == CLOSE)
    ensures ParseToken(input, s) ==
            if tail == [] then (NoToken, s.(pos := s.pos + 1, error := EndOfInput))
            else (if mark == OPEN then Open else Close, s.(pos := s.pos + 1))
  {
    AtByte(input, s.pos, [mark], tail, 0);
    assert |input| - s.pos == 1 + |tail|;
  }

  // One step of the list parser for each kind of token.

  lemma StepEnd(input: seq<byte>, s: ParseState)
    requires s.pos <= |input| && (ParseToken(input, s).0.NoToken? || ParseToken(input, s).0.Close?)
    ensures ParseList(input, s) == (Null, ParseToken(input, s).1)
  {
  }

  lemma StepName(input: seq<byte>, s: ParseState, name: seq<byte>, s1: ParseState, cdr: Tree, s2: ParseState)
    requires s.pos <= |input| && ParseToken(input, s) == (Name(name), s1) && ParseList(input, s1) == (cdr, s2)
    ensures ParseList(input, s) == AllocList(Atom(name), cdr, s2)
  {
  }

  lemma StepOpen(input: seq<byte>, s: ParseState, s1: ParseState, car: Tree, s2: ParseState, cdr: Tree, s3: ParseState)
    requires s.pos <= |input| && ParseToken(input, s) == (Open, s1) && ParseList(input, s1) == (car, s2)
    requires s2.pos <= |input| && ParseList(input, s2) == (cdr, s3)
    ensures ParseList(input, s) == AllocList(car, cdr, s3)
  {
  }

  /**
   * Reading the elements of a list up to its closing parenthesis.  When nothing follows that
   * parenthesis the tree is built all the same, but the end of input is reported.
   */
  lemma {:induction false} ParseElements(input: seq<byte>, s: ParseState, t: Tree, tail: seq<byte>)
    requires IsPlain(t) && ShortNames(t) && At(input, s.pos, EncodeRest(t) + [CLOSE], tail)
    requires s.error == NoError && Room(s, NormRest(t))
    ensures ParseList(input, s) ==
            (NormRest(t), After(s, |EncodeRest(t)| + 1, if tail == [] then EndOfInput else NoError, NormRest(t)))
    decreases t, 0
  {
    hide ParseToken, ParseList, Encode, EncodeRest, NormRest, IsPlain, ShortNames;
    RestFacts(t);
    if !t.List? {
      assert EncodeRest(t) + [CLOSE] == [CLOSE];
      TokenMark(input, s, CLOSE, tail);
      StepEnd(input, s);
    } else {
      var rest := EncodeRest(t.cdr) + [CLOSE];
      assert EncodeRest(t) + [CLOSE] == Encode(t.car) + rest;
      AtSplit(input, s.pos, Encode(t.car), rest, tail);
      var error := if tail == [] then EndOfInput else NoError;
      if t.car.Null? {
        EncodeNull();
        ParseElements(input, s, t.cdr, tail);
      } else if t.car.Atom? {
        TokenName(input, s, t.car.name, rest + tail);
        var s1 := After(s, |Encode(t.car)|, NoError, t.car);
        ParseElements(input, s1, t.cdr, tail);
        StepName(input, s, t.car.name, s1, NormRest(t.cdr), After(s1, |rest|, error, NormRest(t.cdr)));
      } else {
        ParseNested(input, s, t.car, rest + tail);
        var s2 := After(s, |Encode(t.car)|, NoError, NormRest(t.car));
        ParseElements(input, s2, t.cdr, tail);
        StepOpen(input, s, s.(pos := s.pos + 1), NormRest(t.car), s2, NormRest(t.cdr),
                 After(s2, |rest|, error, NormRest(t.cdr)));
      }
    }
  }

  lemma RestFacts(t: Tree)
    requires IsPlain(t) && ShortNames(t)
    ensures !t.List? ==> EncodeRest(t) == [] && NormRest(t) == Null
    ensures t.List? ==>
              && EncodeRest(t) == Encode(t.car) + EncodeRest(t.cdr)
              && IsPlain(t.car) && IsPlain(t.cdr) && ShortNames(t.car) && ShortNames(t.cdr)
              && (t.car.Atom? ==> |t.car.name| <= ATOM_SIZE_LIMIT)
              && (t.car.Null? || t.car.Atom? || IsList(t.car))
              && NormRest(t) == (if t.car.Null? then NormRest(t.cdr)
                                 else List(if t.car.Atom? then t.car else NormRest(t.car), NormRest(t.cdr)))
  {
  }

  lemma EncodeList(t: Tree)
    requires IsList(t)
    ensures Encode(t) == [OPEN] + (EncodeRest(t) + [CLOSE])
  {
    if t.List? {
      assert Encode(t) == [OPEN] + EncodeRest(t) + [CLOSE];
    }
  }

  /** Reading a list from its opening parenthesis. */
  lemma {:induction false} ParseNested(input: seq<byte>, s: ParseState, t: Tree, tail: seq<byte>)
    requires IsPlain(t) && IsList(t) && ShortNames(t) && At(input, s.pos, Encode(t), tail)
    requires s.error == NoError && Room(s, NormRest(t))
    ensures ParseToken(input, s) == (Open, s.(pos := s.pos + 1))
    ensures s.pos + |Encode(t)| <= |input|
    ensures ParseList(input, s.(pos := s.pos + 1)) ==
            (NormRest(t), After(s, |Encode(t)|, if tail == [] then EndOfInput else NoError, NormRest(t)))
    decreases t, 1
  {
    hide ParseToken, ParseList, Encode, EncodeRest;
    var inner := EncodeRest(t) + [CLOSE];
    EncodeList(t);
    AtSplit(input, s.pos, [OPEN], inner, tail);
    TokenMark(input, s, OPEN, inner + tail);
    ParseElements(input, s.(pos := s.pos + 1), t, tail);
  }

  lemma {:induction false} EncodePlain(t: Tree)
    ensures IsPlain(Plain(t)) && Encode(Plain(t)) == Encode(t)
    ensures t.List? ==> EncodeRest(Plain(t)) == EncodeRest(t)
    ensures Plain(t).Null? <==> t.Null?
    ensures ShortNames(t) ==> ShortNames(Plain(t))
  {
    match t {
      case List(a, d) =>
        EncodePlain(a);
        EncodePlain(d);
      case Lambda(a, e) =>
        EncodePlain(a);
        EncodePlain(e);
        PlainLambda(Plain(a), Plain(e));
      case Prim(_) =>
        PlainPrimitive();
      case _ =>
    }
  }

  lemma LiteralHeads()
    ensures Ascii("(6:lambda") == [OPEN] + ([54, COLON] + Ascii("lambda"))
    ensures Ascii("(9:primitive)") == [OPEN] + ([57, COLON] + Ascii("primitive")) + [CLOSE]
  {
  }

  lemma PlainLambda(a: Tree, e: Tree)
    requires IsPlain(a) && IsPlain(e)
    ensures var t := List(Atom(Ascii("lambda")), List(a, List(e, Null)));
            && IsPlain(t) && (ShortNames(a) && ShortNames(e) ==> ShortNames(t))
            && Encode(t) == Ascii("(6:lambda") + Encode(a) + Encode(e) + [CLOSE]
  {
    LiteralHeads();
    ThreeElements(Ascii("lambda"), a, e);
    var h, x, y := [54, COLON] + Ascii("lambda"), Encode(a), Encode(e);
    hide Ascii, Encode;
    assert [OPEN] + (h + (x + y)) + [CLOSE] == [OPEN] + h + x + y + [CLOSE];
  }

  lemma ThreeElements(name: seq<byte>, a: Tree, e: Tree)
    requires |name| == 6
    ensures var t := List(Atom(name), List(a, List(e, Null)));
            && (IsPlain(a) && IsPlain(e) ==> IsPlain(t))
            && (ShortNames(a) && ShortNames(e) ==> ShortNames(t))
            && Encode(t) == [OPEN] + (([54, COLON] + name) + (Encode(a) + Encode(e))) + [CLOSE]
  {
    var last := List(e, Null);
    assert (IsPlain(e) ==> IsPlain(last)) && (ShortNames(e) ==> ShortNames(last));
    assert EncodeRest(last) == Encode(e) + [] == Encode(e);
    assert Encode(Atom(name)) == [54, COLON] + name;
  }

  lemma PlainPrimitive()
    ensures Encode(List(Atom(Ascii("primitive")), Null)) == Ascii("(9:primitive)")
  {
    LiteralHeads();
    var head := [57, COLON] + Ascii("primitive");
    assert Encode(Atom(Ascii("primitive"))) == head;
    assert [OPEN] + (head + []) + [CLOSE] == [OPEN] + head + [CLOSE];
  }

  // ---------------------------------------------------------------- the theorems

  /**
   * What comes back when any value is written and read again, whatever follows it: NULL elements are
   * gone, lists without elements are NULL, lambdas and primitives are lists.  A list, unlike an atom,
   * needs one more byte behind it.
   */
  lemma ParseEncode(input: seq<byte>, s: ParseState, t: Tree, tail: seq<byte>)
    requires t != Null && ShortNames(t) && At(input, s.pos, Encode(t), tail)
    requires s.error == NoError && Room(s, Norm(Plain(t)))
    ensures Parse(input, s) ==
            (Norm(Plain(t)),
             After(s, |Encode(t)|, if tail == [] && !t.Atom? then EndOfInput else NoError, Norm(Plain(t))))
  {
    EncodePlain(t);
    if t.Atom? {
      TokenName(input, s, t.name, tail);
    } else {
      ParseNested(input, s, Plain(t), tail);
    }
  }

  /** Atoms, and non-empty NULL-terminated lists of such values. */
  predicate Solid(t: Tree) {
    match t
    case Atom(_) => true
    case List(a, d) => Solid(a) && (d.Null? || (d.List? && Solid(d)))
    case _ => false
  }

  lemma {:induction false} NormShorter(t: Tree)
    ensures |Elems(NormRest(t))| <= |Elems(t)|
    ensures NormRest(t).Null? || NormRest(t).List?
  {
    if t.List? {
      NormShorter(t.cdr);
    }
  }

  lemma {:induction false} PlainShape(t: Tree)
    ensures Plain(t).Null? <==> t.Null?
    ensures t.List? ==> |Elems(Plain(t))| <= |Elems(t)|
  {
    if t.List? && t.cdr.List? {
      PlainShape(t.cdr);
    }
  }

  /** Reading a value back gives the same value exactly for the solid ones. */
  lemma {:induction false} SameAfterRoundTrip(t: Tree)
    requires t != Null
    ensures Norm(Plain(t)) == t <==> Solid(t)
  {
    match t {
      case List(a, d) =>
        if a.Null? {
          PlainShape(t);
          NormShorter(Plain(t).cdr);
          assert |Elems(t)| == 1 + |Elems(d)|;
          if d.List? {
            PlainShape(d);
          }
        } else {
          PlainShape(a);
          SameAfterRoundTrip(a);
          var rest := if d.List? then Plain(d) else Null;
          assert Norm(Plain(t)) == List(Norm(Plain(a)), NormRest(rest));
          if d.List? {
            SameAfterRoundTrip(d);
            assert Plain(d).List? && Norm(Plain(d)) == NormRest(rest);
          }
        }
      case _ =>
    }
  }

  /** The law the format is for: a solid value is read back as it was, up to exactly its last byte. */
  lemma RoundTrip(t: Tree, tail: seq<byte>, s: ParseState)
    requires Solid(t) && ShortNames(t) && tail != [] && s.pos == 0 && s.error == NoError && Room(s, t)
    ensures Parse(Encode(t) + tail, s) == (t, After(s, |Encode(t)|, NoError, t))
  {
    SameAfterRoundTrip(t);
    ParseEncode(Encode(t) + tail, s, t, tail);
  }

  /** No encoding begins another one: two values followed by anything can only look alike if they are. */
  lemma PrefixFree(t: Tree, x: seq<byte>, u: Tree, y: seq<byte>)
    requires Solid(t) && ShortNames(t) && Room(ParseState(0, NoError, 0, 0), t)
    requires Solid(u) && ShortNames(u) && Room(ParseState(0, NoError, 0, 0), u)
    requires Encode(t) + x == Encode(u) + y
    ensures t == u && x == y
  {
    var s := ParseState(0, NoError, 0, 0);
    var input := Encode(t) + x + [NEWLINE];
    assert input == Encode(t) + (x + [NEWLINE]) == Encode(u) + (y + [NEWLINE]);
    RoundTrip(t, x + [NEWLINE], s);
    RoundTrip(u, y + [NEWLINE], s);
    assert x == (Encode(t) + x)[|Encode(t)|..];
  }

  // ---------------------------------------------------------------- bounds on any input at all

  ghost predicate Bounded(s: ParseState, r: ParseState) {
    && s.cells <= r.cells <= s.cells + 2 * (r.pos - s.pos)
    && s.bytes <= r.bytes <= s.bytes + (r.pos - s.pos)
    && (r.cells == s.cells ==> r.bytes == s.bytes)
    && (s.cells <= EXPRESSION_LIMIT ==> r.cells <= EXPRESSION_LIMIT)
    && (s.bytes <= HEAP_SIZE ==> r.bytes <= HEAP_SIZE)
    && (s.error != NoError ==> r.error != NoError)
  }

  lemma TokenBounds(input: seq<byte>, s: ParseState)
    requires s.pos <= |input|
    ensures var (token, r) := ParseToken(input, s);
            && Bounded(s, r) && r.cells == s.cells + (if token.Name? then 1 else 0)
            && (token.Name? ==> |token.name| <= ATOM_SIZE_LIMIT)
            && (token.NoToken? ==> r.error != NoError)
  {
  }

  /**
   * Whatever bytes arrive, n of them take at most 2n cells and n heap bytes, the limits are kept, and
   * an error once found stays an error; without one the value is well formed.
   */
  lemma {:induction false} ParseListBounds(input: seq<byte>, s: ParseState)
    requires s.pos <= |input|
    ensures var (t, r) := ParseList(input, s);
            Bounded(s, r) && (r.error == NoError ==> IsPlain(t) && ShortNames(t))
    decreases |input| - s.pos
  {
    TokenBounds(input, s);
    hide ParseToken;
    var (token, s1) := ParseToken(input, s);
    if token.Open? {
      ParseListBounds(input, s1);
      ParseListBounds(input, ParseList(input, s1).1);
    } else if token.Name? {
      ParseListBounds(input, s1);
    }
  }

  lemma ParseBounds(input: seq<byte>, s: ParseState)
    requires s.pos <= |input|
    ensures var (t, r) := Parse(input, s);
            Bounded(s, r) && (r.error == NoError ==> IsPlain(t) && ShortNames(t))
  {
    TokenBounds(input, s);
    hide ParseToken;
    if ParseToken(input, s).0.Open? {
      ParseListBounds(input, ParseToken(input, s).1);
    }
  }

  // ---------------------------------------------------------------- values that do not fit

  lemma TokenTooBig(input: seq<byte>, s: ParseState, name: seq<byte>, tail: seq<byte>)
    requires At(input, s.pos, Encode(Atom(name)), tail) && s.error == NoError
    requires |name| <= ATOM_SIZE_LIMIT && !Room(s, Atom(name))
    ensures ParseToken(input, s).0.NoToken?
    ensures ParseToken(input, s).1.error == if s.cells >= EXPRESSION_LIMIT then LimitExpressions else LimitMemory
  {
    hide At, ScanSize, Decimal;
    var n := |name|;
    AtSplit(input, s.pos, Decimal(n) + [COLON], name, tail);
    ScanDecimal(input, s.pos, n, name + tail);
    var q := s.pos + |Decimal(n)| + 1;
    assert input[q..q + n] == input[q..][..n] == (name + tail)[..n] == name;
  }

  /** The elements of a list that does not fit into the pools are not read without an error. */
  lemma {:induction false} ElementsTooBig(input: seq<byte>, s: ParseState, t: Tree, tail: seq<byte>)
    requires IsPlain(t) && ShortNames(t) && At(input, s.pos, EncodeRest(t) + [CLOSE], tail)
    requires s.error == NoError && !Room(s, NormRest(t)) && s.cells <= EXPRESSION_LIMIT && s.bytes <= HEAP_SIZE
    ensures s.pos <= |input| && ParseList(input, s).1.error != NoError
    decreases t, 2
  {
    hide ParseToken, ParseList, Encode, EncodeRest, NormRest, IsPlain, ShortNames, At;
    RestFacts(t);
    AtPos(input, s.pos, EncodeRest(t) + [CLOSE], tail);
    if t.List? {
      var rest := EncodeRest(t.cdr) + [CLOSE];
      assert EncodeRest(t) + [CLOSE] == Encode(t.car) + rest;
      AtSplit(input, s.pos, Encode(t.car), rest, tail);
      if t.car.Null? {
        EncodeNull();
        ElementsTooBig(input, s, t.cdr, tail);
      } else if t.car.Atom? {
        NameTooBig(input, s, t, rest, tail);
      } else {
        NestedTooBig(input, s, t, rest, tail);
      }
    }
  }

  lemma AtPos(input: seq<byte>, pos: nat, x: seq<byte>, tail: seq<byte>)
    requires At(input, pos, x, tail)
    ensures pos <= |input|
  {
  }

  /** Behind the first element, one cell more than the rest of the list is needed. */
  lemma {:induction false} BehindFirst(input: seq<byte>, s: ParseState, d: Tree, car: Tree, tail: seq<byte>)
    requires IsPlain(d) && ShortNames(d) && At(input, s.pos, EncodeRest(d) + [CLOSE], tail)
    requires s.error == NoError && s.cells <= EXPRESSION_LIMIT && s.bytes <= HEAP_SIZE && s.pos <= |input|
    requires !Room(s.(cells := s.cells + 1), NormRest(d))
    ensures var (cdr, s1) := ParseList(input, s); AllocList(car, cdr, s1).1.error != NoError
    decreases d, 3
  {
    hide ParseToken, ParseList, Encode, EncodeRest, NormRest, IsPlain, ShortNames, At;
    if Room(s, NormRest(d)) {
      ParseElements(input, s, d, tail);
    } else {
      ElementsTooBig(input, s, d, tail);
    }
  }

  lemma NormRoom(s: ParseState, t: Tree)
    requires t.List? && !t.car.Null? && IsPlain(t) && ShortNames(t)
    ensures var x := if t.car.Atom? then t.car else NormRest(t.car);
            Room(s, NormRest(t)) <==>
            Room(s.(cells := s.cells + CellsOf(x) + 1, bytes := s.bytes + BytesOf(x)), NormRest(t.cdr))
  {
  }

  /** The first element is an atom. */
  lemma {:induction false} NameTooBig(input: seq<byte>, s: ParseState, t: Tree, rest: seq<byte>, tail: seq<byte>)
    requires t.List? && IsPlain(t) && ShortNames(t) && t.car.Atom? && rest == EncodeRest(t.cdr) + [CLOSE]
    requires At(input, s.pos, Encode(t.car), rest + tail) && At(input, s.pos + |Encode(t.car)|, rest, tail)
    requires s.pos <= |input| && s.error == NoError && !Room(s, NormRest(t))
    requires s.cells <= EXPRESSION_LIMIT && s.bytes <= HEAP_SIZE
    ensures ParseList(input, s).1.error != NoError
    decreases t, 1
  {
    RestFacts(t);
    NormRoom(s, t);
    hide ParseToken, ParseList, Encode, EncodeRest, NormRest, IsPlain, ShortNames, At;
    if !Room(s, t.car) {
      TokenTooBig(input, s, t.car.name, rest + tail);
      StepEnd(input, s);
    } else {
      TokenName(input, s, t.car.name, rest + tail);
      var s1 := After(s, |Encode(t.car)|, NoError, t.car);
      AtPos(input, s1.pos, rest, tail);
      BehindFirst(input, s1, t.cdr, t.car, tail);
      var (cdr, s2) := ParseList(input, s1);
      StepName(input, s, t.car.name, s1, cdr, s2);
    }
  }

  lemma NestedOpen(input: seq<byte>, s: ParseState, t: Tree, tail: seq<byte>)
    requires IsList(t) && At(input, s.pos, Encode(t), tail) && s.error == NoError
    ensures ParseToken(input, s) == (Open, s.(pos := s.pos + 1))
    ensures s.pos + 1 <= |input| && At(input, s.pos + 1, EncodeRest(t) + [CLOSE], tail)
  {
    hide ParseToken, Encode, EncodeRest, At;
    var inner := EncodeRest(t) + [CLOSE];
    EncodeList(t);
    AtSplit(input, s.pos, [OPEN], inner, tail);
    TokenMark(input, s, OPEN, inner + tail);
    AtPos(input, s.pos + 1, inner, tail);
  }

  lemma ErrorStays(input: seq<byte>, s: ParseState)
    requires s.pos <= |input| && s.error != NoError
    ensures ParseList(input, s).1.error != NoError
  {
    ParseListBounds(input, s);
  }

  /** The first element is a list, which fits. */
  lemma {:induction false} NestedFits(input: seq<byte>, s: ParseState, t: Tree, rest: seq<byte>, tail: seq<byte>,
                                      car: Tree, s1: ParseState)
    requires t.List? && IsPlain(t) && ShortNames(t) && IsList(t.car) && rest == EncodeRest(t.cdr) + [CLOSE]
    requires At(input, s.pos + |Encode(t.car)|, rest, tail) && s.error == NoError
    requires !Room(s, NormRest(t)) && Room(s, NormRest(t.car))
    requires s1 == After(s, |Encode(t.car)|, NoError, NormRest(t.car))
    ensures s1.pos <= |input|
    ensures var (cdr, s2) := ParseList(input, s1); AllocList(car, cdr, s2).1.error != NoError
    decreases t, 0
  {
    RestFacts(t);
    NormRoom(s, t);
    hide ParseToken, ParseList, Encode, EncodeRest, NormRest, IsPlain, ShortNames, At;
    AtPos(input, s1.pos, rest, tail);
    BehindFirst(input, s1, t.cdr, car, tail);
  }

  /** The first element is a list. */
  lemma {:induction false} NestedTooBig(input: seq<byte>, s: ParseState, t: Tree, rest: seq<byte>, tail: seq<byte>)
    requires t.List? && IsPlain(t) && ShortNames(t) && IsList(t.car) && rest == EncodeRest(t.cdr) + [CLOSE]
    requires At(input, s.pos, Encode(t.car), rest + tail) && At(input, s.pos + |Encode(t.car)|, rest, tail)
    requires s.pos <= |input| && s.error == NoError && !Room(s, NormRest(t))
    requires s.cells <= EXPRESSION_LIMIT && s.bytes <= HEAP_SIZE
    ensures ParseList(input, s).1.error != NoError
    decreases t, 1
  {
    RestFacts(t);
    hide ParseToken, ParseList, Encode, EncodeRest, NormRest, IsPlain, ShortNames, At, CellsOf, BytesOf;
    var s1 := s.(pos := s.pos + 1);
    NestedOpen(input, s, t.car, rest + tail);
    var (car, s2) := ParseList(input, s1);
    if Room(s, NormRest(t.car)) {
      ParseNested(input, s, t.car, rest + tail);
      assert rest + tail != [];
      NestedFits(input, s, t, rest, tail, car, s2);
    } else {
      ElementsTooBig(input, s1, t.car, rest + tail);
      ErrorStays(input, s2);
    }
    var (cdr, s3) := ParseList(input, s2);
    StepOpen(input, s, s1, car, s2, cdr, s3);
  }

  /** A solid list that does not fit into the pools is not read without an error. */
  lemma ListTooBig(t: Tree, tail: seq<byte>, s: ParseState)
    requires t.List? && Solid(t) && ShortNames(t) && tail != [] && s.pos == 0 && s.error == NoError && !Room(s, t)
    requires s.cells <= EXPRESSION_LIMIT && s.bytes <= HEAP_SIZE
    ensures Parse(Encode(t) + tail, s).1.error != NoError
  {
    var input := Encode(t) + tail;
    SameAfterRoundTrip(t);
    EncodePlain(t);
    var u := Plain(t);
    assert IsList(u) && NormRest(u) == t;
    EncodeList(u);
    var inner := EncodeRest(u) + [CLOSE];
    AtSplit(input, 0, [OPEN], inner, tail);
    TokenMark(input, s, OPEN, inner + tail);
    ElementsTooBig(input, s.(pos := 1), u, tail);
  }
}
