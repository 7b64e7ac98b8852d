/**
 * What the token reader of src/common/lisp/parser.c makes of bytes that are no encodings: line feeds, sizes
 * of any length, names that are cut off or too long, and bytes that begin no token.
 */
module Tokens {
  import opened Bytes
  import opened Trees
  import opened Semantics
  import opened Encoding
  import opened RoundTrip
  import opened Interface

  // ---------------------------------------------------------------- bytes in front

  /** `s`, when `n` bytes have been put in front of the input. */
  function Later(s: ParseState, n: nat): ParseState {
    s.(pos := n + s.pos)
  }

  function ScanLater(r: Scan, n: nat): Scan {
    match r
    case Scanned(size, ch, pos) => Scanned(size, ch, n + pos)
    case Truncated(pos) => Truncated(n + pos)
  }

  lemma {:induction false} ScanShifts(front: seq<byte>, input: seq<byte>, pos: nat, ch: byte, size: nat)
    requires pos <= |input|
    ensures ScanSize(front + input, |front| + pos, ch, size) == ScanLater(ScanSize(input, pos, ch, size), |front|)
    decreases |input| - pos
  {
    if IsDigit(ch) && pos < |input| {
      assert (front + input)[|front| + pos] == input[pos];
      ScanShifts(front, input, pos + 1, input[pos], (size * 10 + (ch - 48)) % 256);
    }
  }

  lemma NameShifts(front: seq<byte>, input: seq<byte>, s: ParseState, size: nat)
    requires s.pos <= |input|
    ensures var (token, r) := NameToken(input, s, size);
            NameToken(front + input, Later(s, |front|), size) == (token, Later(r, |front|))
  {
    if s.pos + size <= |input| {
      assert (front + input)[|front| + s.pos..|front| + s.pos + size] == input[s.pos..s.pos + size];
    }
  }

  lemma TokenShifts(front: seq<byte>, input: seq<byte>, s: ParseState)
    requires s.pos <= |input|
    ensures var (token, r) := ParseToken(input, s);
            ParseToken(front + input, Later(s, |front|)) == (token, Later(r, |front|))
  {
    hide ScanSize, NameToken;
    var (c, p) := GetC(input, s.pos);
    var (ch, pos) := if c == NEWLINE then GetC(input, p) else (c, p);
    assert GetC(front + input, |front| + s.pos) == (c, |front| + p);
    assert c == NEWLINE ==> GetC(front + input, |front| + p) == (ch, |front| + pos);
    ScanShifts(front, input, pos, ch, 0);
    match ScanSize(input, pos, ch, 0) {
      case Truncated(_) =>
      case Scanned(size, _, q) => NameShifts(front, input, s.(pos := q), size);
    }
  }

  predicate Shifted(front: seq<byte>, input: seq<byte>, s: ParseState)
    requires s.pos <= |input|
  {
    ParseList(front + input, Later(s, |front|)) ==
    (ParseList(input, s).0, Later(ParseList(input, s).1, |front|))
  }

  lemma {:induction false} ListShifts(front: seq<byte>, input: seq<byte>, s: ParseState)
    requires s.pos <= |input|
    ensures Shifted(front, input, s)
    decreases |input| - s.pos
  {
    TokenShifts(front, input, s);
    hide ParseToken, ParseList, Shifted;
    var token, s1 := ParseToken(input, s).0, ParseToken(input, s).1;
    if token.Open? {
      var car, s2 := ParseList(input, s1).0, ParseList(input, s1).1;
      var cdr, s3 := ParseList(input, s2).0, ParseList(input, s2).1;
      ListShifts(front, input, s1);
      ListShifts(front, input, s2);
      ShiftedMeans(front, input, s1);
      ShiftedMeans(front, input, s2);
      OpenShifts(input, front + input, |front|, s, s1, car, s2, cdr, s3);
      ShiftedMeans(front, input, s);
    } else if token.Name? {
      ListShifts(front, input, s1);
      NamedShifts(front, input, s, token.name, s1);
    } else {
      EndShifts(front, input, s);
    }
  }

  lemma ShiftedMeans(front: seq<byte>, input: seq<byte>, s: ParseState)
    requires s.pos <= |input|
    ensures Shifted(front, input, s) <==>
            ParseList(front + input, Later(s, |front|)) ==
            (ParseList(input, s).0, Later(ParseList(input, s).1, |front|))
  {
  }

  lemma OpenShifts(input: seq<byte>, more: seq<byte>, n: nat, s: ParseState, s1: ParseState,
                   car: Tree, s2: ParseState, cdr: Tree, s3: ParseState)
    requires |more| == n + |input| && s.pos <= |input| && s1.pos <= |input| && s2.pos <= |input|
    requires ParseToken(input, s) == (Open, s1) && ParseToken(more, Later(s, n)) == (Open, Later(s1, n))
    requires ParseList(input, s1) == (car, s2) && ParseList(more, Later(s1, n)) == (car, Later(s2, n))
    requires ParseList(input, s2) == (cdr, s3) && ParseList(more, Later(s2, n)) == (cdr, Later(s3, n))
    ensures ParseList(more, Later(s, n)) == (ParseList(input, s).0, Later(ParseList(input, s).1, n))
  {
    hide ParseToken, ParseList, AllocList, Later;
    StepOpen(input, s, s1, car, s2, cdr, s3);
    StepOpen(more, Later(s, n), Later(s1, n), car, Later(s2, n), cdr, Later(s3, n));
    AllocShifts(car, cdr, s3, n);
  }

  lemma AllocShifts(car: Tree, cdr: Tree, s: ParseState, n: nat)
    ensures AllocList(car, cdr, Later(s, n)) == (AllocList(car, cdr, s).0, Later(AllocList(car, cdr, s).1, n))
  {
  }

  lemma NamedShifts(front: seq<byte>, input: seq<byte>, s: ParseState, name: seq<byte>, s1: ParseState)
    requires s.pos <= |input| && s1.pos <= |input| && ParseToken(input, s) == (Name(name), s1)
    requires ParseToken(front + input, Later(s, |front|)) == (Name(name), Later(s1, |front|))
    requires Shifted(front, input, s1)
    ensures Shifted(front, input, s)
  {
    hide ParseToken, ParseList;
    var n, cdr, s2 := |front|, ParseList(input, s1).0, ParseList(input, s1).1;
    StepName(input, s, name, s1, cdr, s2);
    StepName(front + input, Later(s, n), name, Later(s1, n), cdr, Later(s2, n));
  }

  lemma EndShifts(front: seq<byte>, input: seq<byte>, s: ParseState)
    requires s.pos <= |input| && (ParseToken(input, s).0.NoToken? || ParseToken(input, s).0.Close?)
    requires ParseToken(front + input, Later(s, |front|)) ==
             (ParseToken(input, s).0, Later(ParseToken(input, s).1, |front|))
    ensures Shifted(front, input, s)
  {
    hide ParseToken, ParseList;
    StepEnd(input, s);
    StepEnd(front + input, Later(s, |front|));
  }

  /** Only what is behind the index matters. */
  lemma ParseShifts(front: seq<byte>, input: seq<byte>, s: ParseState)
    requires s.pos <= |input|
    ensures var (t, r) := Parse(input, s);
            Parse(front + input, Later(s, |front|)) == (t, Later(r, |front|))
  {
    TokenShifts(front, input, s);
    hide ParseToken, ParseList;
    if ParseToken(input, s).0.Open? {
      ListShifts(front, input, ParseToken(input, s).1);
    }
  }

  // ---------------------------------------------------------------- line feeds

  /** One line feed before a token is skipped. */
  lemma LineFeedSkipped(input: seq<byte>, s: ParseState)
    requires s.pos + 1 < |input| && input[s.pos] == 10 && input[s.pos + 1] != 10
    ensures ParseToken(input, s) == ParseToken(input, s.(pos := s.pos + 1))
  {
  }

  /** A second one is not, and begins no token. */
  lemma SecondLineFeed(input: seq<byte>, s: ParseState)
    requires s.pos + 2 < |input| && input[s.pos] == 10 && input[s.pos + 1] == 10
    ensures ParseToken(input, s) == (NoToken, s.(pos := s.pos + 2, error := NotAToken))
  {
  }

  /** One at the end of the input is the end of the input. */
  lemma LastLineFeed(input: seq<byte>, s: ParseState)
    requires s.pos + 1 == |input| && input[s.pos] == 10
    ensures ParseToken(input, s) == (NoToken, s.(pos := |input|, error := EndOfInput))
  {
  }

  /** A line feed in front of a message, left over from the line end of the one before, changes nothing. */
  lemma LineFeedMessage(w: World, message: seq<byte>)
    requires message != [] && message[0] != 10
    ensures FaultOf(w, [10] + message) == FaultOf(w, message)
    ensures Served(w, message) ==>
              && Next(w, [10] + message) == Next(w, message) && Verdict(w, [10] + message) == Verdict(w, message)
              && Reply(w, [10] + message) == Reply(w, message)
  {
    var s, input := ParseState(0, NoError, w.cells, w.bytes), [10] + message;
    LineFeedSkipped(input, s);
    ParseShifts([10], message, s);
    ParseByToken(input, s, s.(pos := 1));
    hide Encoding.Parse, Eval, Writable, Encode, ErrorMessage;
    assert Read(w, input).0 == Read(w, message).0;
    assert Reading(w, Read(w, input).1) == Reading(w, Read(w, message).1);
    assert Run(w, input) == Run(w, message);
  }

  /** lispParse goes by its first token and what is behind it. */
  lemma ParseByToken(input: seq<byte>, s: ParseState, u: ParseState)
    requires s.pos <= |input| && u.pos <= |input| && ParseToken(input, s) == ParseToken(input, u)
    ensures Parse(input, s) == Parse(input, u)
  {
  }

  // ---------------------------------------------------------------- sizes

  /** The digits read so far as an 8-bit number. */
  function Fold(size: nat, digits: seq<byte>): nat
    requires forall i :: 0 <= i < |digits| ==> IsDigit(digits[i])
    decreases |digits|
  {
    if |digits| == 0 then size else Fold((size * 10 + digits[0] as int - 48) % 256, digits[1..])
  }

  lemma {:induction false} FoldLast(size: nat, digits: seq<byte>, d: byte)
    requires IsDigit(d) && forall i :: 0 <= i < |digits| ==> IsDigit(digits[i])
    ensures Fold(size, digits + [d]) == (Fold(size, digits) * 10 + (d - 48)) % 256
    decreases |digits|
  {
    if digits == [] {
      assert [d][1..] == [] && ([] + [d]) == [d];
    } else {
      assert (digits + [d])[0] == digits[0] && (digits + [d])[1..] == digits[1..] + [d];
      FoldLast((size * 10 + (digits[0] - 48)) % 256, digits[1..], d);
    }
  }

  lemma WholeTimes(x: nat, k: nat)
    ensures (x + 256 * k) % 256 == x % 256
  {
  }

  lemma TenTimes(n: nat)
    ensures (n / 10 % 256 * 10 + n % 10) % 256 == n % 256
  {
    var q, r := n / 10, n % 10;
    assert n == 10 * q + r;
    TenTimesPlus(q, r);
  }

  lemma TenTimesPlus(q: nat, r: nat)
    ensures (q % 256 * 10 + r) % 256 == (10 * q + r) % 256
  {
    var a, b := q / 256, q % 256;
    assert q == 256 * a + b;
    WholeTimes(b * 10 + r, 10 * a);
  }

  lemma DecimalByLast(n: nat)
    ensures Decimal(n) == if n < 10 then [48 + n] else Decimal(n / 10) + [48 + n % 10]
  {
  }

  lemma {:induction false} FoldDecimal(n: nat)
    ensures Fold(0, Decimal(n)) == n % 256
  {
    hide Decimal;
    DecimalByLast(n);
    if n < 10 {
      FoldLast(0, [], 48 + n);
      assert [] + [48 + n] == [48 + n];
    } else {
      FoldDecimal(n / 10);
      FoldLast(0, Decimal(n / 10), 48 + n % 10);
      TenTimes(n);
    }
  }

  lemma {:induction false} ScanFolds(input: seq<byte>, pos: nat, digits: seq<byte>, size: nat, tail: seq<byte>)
    requires digits != [] && forall i :: 0 <= i < |digits| ==> IsDigit(digits[i])
    requires At(input, pos, digits + [COLON], tail)
    ensures pos + |digits| < |input| && input[pos] == digits[0]
    ensures ScanSize(input, pos + 1, input[pos], size) == Scanned(Fold(size, digits), COLON, pos + |digits| + 1)
    decreases |digits|
  {
    AtByte(input, pos, digits + [COLON], tail, 0);
    AtByte(input, pos, digits + [COLON], tail, |digits|);
    var next := (size * 10 + (digits[0] - 48)) % 256;
    if |digits| == 1 {
      assert digits[1..] == [] && Fold(next, []) == next;
      assert input[pos + 1] == COLON;
    } else {
      assert digits + [COLON] == [digits[0]] + (digits[1..] + [COLON]);
      AtSplit(input, pos, [digits[0]], digits[1..] + [COLON], tail);
      ScanFolds(input, pos + 1, digits[1..], next, tail);
    }
  }

  /**
   * A size of any length, a colon, and `rest`: the size counts modulo 256; if there are fewer bytes the
   * token is truncated; if it is more than 64 that many bytes are read over; else they are the name.
   */
  lemma SizedToken(input: seq<byte>, s: ParseState, n: nat, rest: seq<byte>)
    requires At(input, s.pos, Decimal(n) + [COLON], rest) && s.error == NoError
    ensures var size, start := n % 256, s.pos + |Decimal(n)| + 1;
            ParseToken(input, s) ==
            if |rest| < size then (NoToken, s.(pos := |input|, error := TokenTruncated))
            else if size > 64 then (NoToken, s.(pos := start + size, error := LimitToken))
            else if s.cells >= 160 then (NoToken, s.(pos := start + size, error := LimitExpressions))
            else if s.bytes + size > 256 then (NoToken, s.(pos := start + size, error := LimitMemory))
            else (Name(rest[..size]), s.(pos := start + size, cells := s.cells + 1, bytes := s.bytes + size))
  {
    var size, start, head := n % 256, s.pos + |Decimal(n)| + 1, Decimal(n) + [COLON];
    hide *;
    ScanFolds(input, s.pos, Decimal(n), 0, rest);
    FoldDecimal(n);
    Behind(input, s.pos, head, rest);
    TokenBySize(input, s, size, start);
    NameBehind(input, s.(pos := start), size, rest);
  }

  /** The bytes of a name are in front of what is left. */
  lemma NameBehind(input: seq<byte>, s: ParseState, size: nat, rest: seq<byte>)
    requires s.pos <= |input| && input[s.pos..] == rest && s.error == NoError
    ensures NameToken(input, s, size) ==
            if |rest| < size then (NoToken, s.(pos := |input|, error := TokenTruncated))
            else if size > 64 then (NoToken, s.(pos := s.pos + size, error := LimitToken))
            else if s.cells >= 160 then (NoToken, s.(pos := s.pos + size, error := LimitExpressions))
            else if s.bytes + size > 256 then (NoToken, s.(pos := s.pos + size, error := LimitMemory))
            else (Name(rest[..size]), s.(pos := s.pos + size, cells := s.cells + 1, bytes := s.bytes + size))
  {
    if size <= |rest| {
      assert input[s.pos..s.pos + size] == input[s.pos..][..size];
    }
  }

  /** The first character is a digit, and the loop over the digits ends at a colon. */
  lemma TokenBySize(input: seq<byte>, s: ParseState, size: nat, start: nat)
    requires s.pos + 1 < |input| && IsDigit(input[s.pos]) && start <= |input|
    requires ScanSize(input, s.pos + 1, input[s.pos], 0) == Scanned(size, COLON, start)
    ensures ParseToken(input, s) == NameToken(input, s.(pos := start), size)
  {
    hide ScanSize, NameToken;
  }

  lemma Behind(input: seq<byte>, pos: nat, x: seq<byte>, rest: seq<byte>)
    requires At(input, pos, x, rest)
    ensures pos + |x| + |rest| == |input| && input[pos + |x|..] == rest
  {
    assert input[pos + |x|..] == input[pos..][|x|..];
  }

  /** A colon alone begins a name of no bytes. */
  lemma BareColon(input: seq<byte>, s: ParseState)
    requires s.pos + 1 < |input| && input[s.pos] == 58 && s.error == NoError && s.cells < 160 && s.bytes <= 256
    ensures ParseToken(input, s) == (Name([]), s.(pos := s.pos + 1, cells := s.cells + 1))
  {
    assert input[s.pos + 1..s.pos + 1] == [];
  }

  /** The input ends in the middle of a size. */
  lemma {:induction false} ScanCutOff(input: seq<byte>, pos: nat, ch: byte, size: nat)
    requires pos <= |input| && IsDigit(ch) && forall i :: pos <= i < |input| ==> IsDigit(input[i])
    ensures ScanSize(input, pos, ch, size) == Truncated(|input|)
    decreases |input| - pos
  {
    if pos < |input| {
      ScanCutOff(input, pos + 1, input[pos], (size * 10 + (ch - 48)) % 256);
    }
  }

  lemma SizeCutOff(input: seq<byte>, s: ParseState)
    requires s.pos < |input| && forall i :: s.pos <= i < |input| ==> IsDigit(input[i])
    ensures ParseToken(input, s) ==
            (NoToken, s.(pos := |input|, error := if s.pos + 1 == |input| then EndOfInput else TokenTruncated))
  {
    ScanCutOff(input, s.pos + 1, input[s.pos], 0);
  }

  /** Any other byte, with more behind it, begins no token. */
  lemma NoTokenBegins(input: seq<byte>, s: ParseState)
    requires s.pos + 1 < |input|
    requires input[s.pos] !in [10, 40, 41, 58] && !(48 <= input[s.pos] <= 57)
    ensures ParseToken(input, s) == (NoToken, s.(pos := s.pos + 1, error := NotAToken))
  {
  }

  /** A closing parenthesis in place of a message is a name. */
  lemma LoneClose(input: seq<byte>, s: ParseState)
    requires s.pos + 1 < |input| && input[s.pos] == 41
    ensures Parse(input, s) == (Atom(Ascii(")")), s.(pos := s.pos + 1))
  {
    assert Ascii(")") == [41];
  }
}
