/** lispEmit of src/common/lisp/expression.c, with lispIntegerToString of src/common/lisp/utility.c. */
module Emitter {
  import opened Bytes
  import opened Trees
  import opened ExpressionPool
  import opened PoolInvariant
  import opened Encoding
  import opened EmitLimit
  import opened Evaluator

  const STAR: byte := 42

  lemma DecimalLast(n: nat)
    ensures Decimal(n) == (if n < 10 then [] else Decimal(n / 10)) + [48 + n % 10]
    ensures n >= 10 ==> Decimal(n / 10) != []
  {
  }

  /** lispIntegerToString: the decimal digits, or stars when they do not fit. */
  method IntegerToString(value: byte, output: array<byte>, outputSize: nat) returns (resultSize: nat)
    requires outputSize <= output.Length
    modifies output
    ensures resultSize == if |Decimal(value)| <= outputSize then |Decimal(value)| else outputSize
    ensures |Decimal(value)| <= outputSize ==> output[..resultSize] == Decimal(value)
    ensures |Decimal(value)| > outputSize ==> forall i :: 0 <= i < outputSize ==> output[i] == STAR
  {
    ghost var digits := Decimal(value);
    resultSize := 1;
    var shift: nat := value / 10;
    while shift > 0
      invariant resultSize + (if shift > 0 then |Decimal(shift)| else 0) == |digits|
    {
      resultSize := resultSize + 1;
      shift := shift / 10;
    }
    if resultSize <= outputSize {
      var v: nat, index := value, resultSize;
      assert digits[..index] == digits;
      hide Decimal;
      while index > 0
        invariant index <= resultSize
        invariant index > 0 ==> Decimal(v) == digits[..index]
        invariant forall k :: index <= k < resultSize ==> output[k] == digits[k]
      {
        DecimalLast(v);
        index := index - 1;
        assert digits[..index + 1] == digits[..index] + [digits[index]];
        assert digits[index] == 48 + v % 10;
        output[index] := 48 + v % 10;
        v := v / 10;
      }
    } else {
      forall i | 0 <= i < outputSize {
        output[i] := STAR;
      }
      resultSize := outputSize;
    }
  }

  ghost predicate Ready(p: Lisp)
    reads p, p.Repr
  {
    Sound(p) && p.error == NoError
  }

  /**
   * What an emission promises, `code` being the encoding and `r` what remains: the error if and only if
   * the limit refuses it; all of the encoding without one; a part of it, within the limit, with one.
   */
  ghost predicate Emitted(p: Lisp, written: seq<byte>, code: seq<byte>, r: int, refused: bool)
    reads p, p.Repr
  {
    && Sound(p) && p.error == (if refused then LimitEmit else NoError)
    && if refused then written < code && |written| <= r else written == code
  }

  /** lispEmit: `written` is what lands at `output` and behind it, in a row. */
  method Emit(p: Lisp, expr: Ref, remain: nat, ghost t: Tree, ghost r: int) returns (written: seq<byte>)
    requires Ready(p) && Means(p, expr, t) && ShortNames(t)
    requires remain == Word(r) && Fits16(|Encode(t)|, r, Refused(t, r))
    modifies p`error
    ensures Emitted(p, written, Encode(t), r, Refused(t, r))
    decreases Weight(t), 2
  {
    hide Sound, Encode, Decimal, Refused;
    if expr == NULL {
      EncodeNull();
      NullTaken(r);
      return [];
    }
    match SlotOf(p, expr, t)
    case AtomSlot =>
      written := EmitAtom(p, expr, remain, t, r);
    case LambdaSlot(arguments, expression) =>
      written := EmitLambda(p, arguments, expression, remain, t, r);
    case ListSlot(_, _) =>
      written := EmitList(p, expr, remain, t, r);
    case PrimitiveSlot(_) =>
      written := EmitPrimitive(p, remain, t, r);
  }

  lemma NullTaken(r: int)
    ensures !Refused(Null, r)
  {
  }

  /** The last lines of lispEmit: nothing written is an error. */
  method CheckUsed(p: Lisp, used: nat)
    requires Ready(p)
    modifies p`error
    ensures Sound(p) && p.error == if used == 0 then LimitEmit else NoError
  {
    if used == 0 {
      p.error := LimitEmit;
    }
  }

  /** The PRIMITIVE case. */
  method EmitPrimitive(p: Lisp, remain: nat, ghost t: Tree, ghost r: int) returns (written: seq<byte>)
    requires Ready(p) && t.Prim? && remain == Word(r) && Fits16(|Encode(t)|, r, Refused(t, r))
    modifies p`error
    ensures Emitted(p, written, Encode(t), r, Refused(t, r))
  {
    hide Sound;
    written := if remain >= 13 then Ascii("(9:primitive)") else [];
    CheckUsed(p, |written|);
  }

  /** The ATOM case; the size is given two places. */
  method EmitAtom(p: Lisp, expr: Ref, remain: nat, ghost t: Tree, ghost r: int) returns (written: seq<byte>)
    requires Ready(p) && Means(p, expr, t) && t.Atom? && ShortNames(t)
    requires remain == Word(r) && Fits16(|Encode(t)|, r, Refused(t, r))
    modifies p`error
    ensures Emitted(p, written, Encode(t), r, Refused(t, r))
  {
    hide Good, Decimal;
    var name := p.Name(expr);
    written := [];
    DecimalWidth(|name|);
    NameCode(name);
    if remain >= 2 + |name| + 1 {
      var digits := new byte[2];
      var used := IntegerToString(|name|, digits, 2);
      written := digits[..used] + [COLON];
      written := written + name;
    }
    CheckUsed(p, |written|);
  }

  lemma DecimalWidth(n: nat)
    requires n < 100
    ensures 1 <= |Decimal(n)| <= 2
  {
  }

  /** The LAMBDA case. */
  method EmitLambda(p: Lisp, arguments: Ref, expression: Ref, remain: nat, ghost t: Tree, ghost r: int)
      returns (written: seq<byte>)
    requires Ready(p) && t.Lambda? && Means(p, arguments, t.arguments) && Means(p, expression, t.expression)
    requires ShortNames(t) && remain == Word(r) && Fits16(|Encode(t)|, r, Refused(t, r))
    modifies p`error
    ensures Emitted(p, written, Encode(t), r, Refused(t, r))
    decreases Weight(t), 1
  {
    hide Sound, Encode, Refused, Fits16, ShortNames, Weight;
    LambdaCode(t);
    RefusedLambda(t, r);
    LambdaLimits(t, r);
    written := if remain >= 10 then Ascii("(6:lambda") else [];
    if |written| > 0 {
      WordLater(r, 9);
      var part := Emit(p, arguments, Word(remain - |written|), t.arguments, r - 9);
      written := written + part;
      if p.error == NoError {
        ghost var k := |written|;
        WordLater(r, k);
        part := Emit(p, expression, Word(remain - |written|), t.expression, r - k);
        written := written + part;
        if p.error == NoError {
          written := written + [CLOSE];
        }
      }
      return;
    }
    CheckUsed(p, 0);
  }

  /** The encoding of a lambda by its parts. */
  lemma LambdaCode(t: Tree)
    requires t.Lambda?
    ensures |Ascii("(6:lambda")| == 9
    ensures Encode(t) == Ascii("(6:lambda") + Encode(t.arguments) + Encode(t.expression) + [CLOSE]
    ensures ShortNames(t) ==> ShortNames(t.arguments) && ShortNames(t.expression)
    ensures Weight(t.arguments) < Weight(t) && Weight(t.expression) < Weight(t)
  {
  }

  lemma RefusedLambda(t: Tree, r: int)
    requires t.Lambda?
    ensures Refused(t, r) <==>
            0 <= r < 10 || Refused(t.arguments, r - 9) || Refused(t.expression, r - 9 - |Encode(t.arguments)|)
  {
  }

  /** The limits of the parts of a lambda. */
  lemma LambdaLimits(t: Tree, r: int)
    requires t.Lambda? && ShortNames(t) && Fits16(|Encode(t)|, r, Refused(t, r))
    ensures var k := 9 + |Encode(t.arguments)|;
      && (Refused(t.arguments, r - 9) ==> r >= 9) && (Refused(t.expression, r - k) ==> r >= k)
      && (Word(r) < 10 <==> 0 <= r < 10)
      && (!(0 <= r < 10) ==> Fits16(|Encode(t.arguments)|, r - 9, Refused(t.arguments, r - 9)))
      && (!(0 <= r < 10) && !Refused(t.arguments, r - 9) ==>
            Fits16(|Encode(t.expression)|, r - k, Refused(t.expression, r - k)))
  {
    LambdaCode(t);
    RefusedLambda(t, r);
    hide Encode, Refused, Fits16, ShortNames;
    var x, y := Encode(t.arguments), Encode(t.expression);
    var first, second := Refused(t.arguments, r - 9), Refused(t.expression, r - 9 - |x|);
    var n, refused := |Encode(t)|, Refused(t, r);
    RefusedWithin(t.arguments, r - 9);
    RefusedWithin(t.expression, r - 9 - |x|);
    if !(0 <= r < 10) {
      FitsLater(n, r, refused, 9, |x|, first);
      if !first {
        FitsLater(n, r, refused, 9 + |x|, |y|, second);
      }
    }
    FitsWord(n, r, refused, 10);
  }

  /** The test of what remains is passed by everything behind the limit. */
  lemma FitsWord(n: nat, r: int, refused: bool, need: nat)
    requires Fits16(n, r, refused) && need <= n + 1
    ensures Word(r) < need <==> 0 <= r < need
  {
  }

  /** The LIST case. */
  method EmitList(p: Lisp, expr: Ref, remain: nat, ghost t: Tree, ghost r: int) returns (written: seq<byte>)
    requires Ready(p) && Means(p, expr, t) && IsList(t)
    requires ShortNames(t) && remain == Word(r) && Fits16(|Encode(t)|, r, Refused(t, r))
    modifies p`error
    ensures Emitted(p, written, Encode(t), r, Refused(t, r))
    decreases Weight(t), 1
  {
    hide Sound, Encode, EncodeRest, Refused, RefusedRest, Fits16, ShortNames, Weight;
    ListCode(t);
    RefusedList(t, r);
    ListLimits(t, r);
    if remain >= 2 {
      WordLater(r, 1);
      var part := Emit(p, CarOf(p, expr, t), Word(remain - 1), Car(t), r - 1);
      written := [OPEN] + part;
      if p.error == NoError {
        written := EmitElements(p, CdrOf(p, expr, t), remain, written, Cdr(t), r, |Encode(t)|, Refused(t, r));
        if p.error == NoError {
          written := written + [CLOSE];
        }
      }
      return;
    }
    written := [];
    CheckUsed(p, 0);
  }

  /** The encoding of a list by its parts. */
  lemma ListCode(t: Tree)
    requires IsList(t)
    ensures Encode(t) == [OPEN] + Encode(Car(t)) + EncodeRest(Cdr(t)) + [CLOSE]
    ensures ShortNames(t) ==> ShortNames(Car(t)) && ShortNames(Cdr(t))
    ensures Weight(Car(t)) < Weight(t) && Weight(Cdr(t)) < Weight(t)
  {
    if t.List? {
      assert [OPEN] + (Encode(t.car) + EncodeRest(t.cdr)) == [OPEN] + Encode(t.car) + EncodeRest(t.cdr);
    }
  }

  lemma RefusedList(t: Tree, r: int)
    requires IsList(t)
    ensures Refused(t, r) <==> 0 <= r < 2 || Refused(Car(t), r - 1) || RefusedRest(Cdr(t), r - 1 - |Encode(Car(t))|)
  {
  }

  /** The limits of the parts of a list. */
  lemma ListLimits(t: Tree, r: int)
    requires IsList(t) && ShortNames(t) && Fits16(|Encode(t)|, r, Refused(t, r))
    ensures (Refused(Car(t), r - 1) ==> r >= 1) && (Word(r) < 2 <==> 0 <= r < 2)
    ensures !(0 <= r < 2) ==> Fits16(|Encode(Car(t))|, r - 1, Refused(Car(t), r - 1))
  {
    ListCode(t);
    RefusedList(t, r);
    hide Encode, EncodeRest, Refused, RefusedRest, Fits16, ShortNames;
    var x, n, refused, first := Encode(Car(t)), |Encode(t)|, Refused(t, r), Refused(Car(t), r - 1);
    RefusedWithin(Car(t), r - 1);
    RefusedRestWithin(Cdr(t), r - 1 - |x|);
    if !(0 <= r < 2) {
      FitsLater(n, r, refused, 1, |x|, first);
    }
    FitsWord(n, r, refused, 2);
  }

  /** The loop of the LIST case, behind what is already written, for a list of `n` bytes in all. */
  method EmitElements(p: Lisp, first: Ref, remain: nat, start: seq<byte>, ghost t: Tree, ghost r: int,
                      ghost n: nat, ghost refused: bool)
      returns (written: seq<byte>)
    requires Ready(p) && Means(p, first, t) && ShortNames(t) && remain == Word(r)
    requires Fits16(n, r, refused) && |start| + |EncodeRest(t)| < n && (refused ==> RefusedRest(t, r - |start|))
    modifies p`error
    ensures Emitted(p, written, start + EncodeRest(t), r, RefusedRest(t, r - |start|))
    decreases Weight(t), 3
  {
    hide Sound, Encode, EncodeRest, ShortNames, Weight, Refused, RefusedRest, Fits16;
    written := start;
    var e := first;
    ghost var rest, code, verdict := t, start + EncodeRest(t), RefusedRest(t, r - |start|);
    while ListAt(p, e, rest)
      invariant Ready(p) && Means(p, e, rest) && ShortNames(rest) && Weight(rest) <= Weight(t)
      invariant written + EncodeRest(rest) == code && |code| < n
      invariant RefusedRest(rest, r - |written|) == verdict && (refused ==> verdict)
      decreases Weight(rest)
    {
      RestCode(rest, r, n, refused, |written|);
      if CarOf(p, e, rest) != NULL {
        WordLater(r, |written|);
        ghost var was := written;
        var part := Emit(p, CarOf(p, e, rest), Word(remain - |written|), Car(rest), r - |was|);
        written := written + part;
        if p.error != NoError {
          assert code == was + Encode(Car(rest)) + EncodeRest(Cdr(rest));
          return;
        }
      }
      e, rest := CdrOf(p, e, rest), Cdr(rest);
    }
    RestDone(rest, r - |written|);
  }

  lemma RestDone(t: Tree, r: int)
    requires !IsList(t)
    ensures EncodeRest(t) == [] && !RefusedRest(t, r)
  {
  }

  lemma RestCode(t: Tree, r: int, n: nat, refused: bool, k: nat)
    requires IsList(t) && ShortNames(t) && Fits16(n, r, refused) && k + |EncodeRest(t)| < n
    requires refused ==> RefusedRest(t, r - k)
    ensures var x := Encode(Car(t));
      && EncodeRest(t) == x + EncodeRest(Cdr(t)) && (Car(t) == Null ==> x == [])
      && ShortNames(Car(t)) && ShortNames(Cdr(t))
      && Weight(Car(t)) < Weight(t) && Weight(Cdr(t)) < Weight(t)
      && (RefusedRest(t, r - k) <==> Refused(Car(t), r - k) || RefusedRest(Cdr(t), r - k - |x|))
      && (Car(t) == Null ==> !Refused(Car(t), r - k))
      && Fits16(|x|, r - k, Refused(Car(t), r - k)) && (Refused(Car(t), r - k) ==> r >= k)
  {
    var x := Encode(Car(t));
    RefusedWithin(Car(t), r - k);
    RefusedRestWithin(Cdr(t), r - k - |x|);
    assert RefusedRest(t, r - k) <==> Refused(Car(t), r - k) || RefusedRest(Cdr(t), r - k - |x|);
    assert EncodeRest(t) == x + EncodeRest(Cdr(t));
    hide Encode, EncodeRest, Refused, RefusedRest, Fits16;
    FitsLater(n, r, refused, k, |x|, Refused(Car(t), r - k));
  }
}
