/**
 * How lispEmit of src/common/lisp/expression.c goes by its limit.
 *
 * Every value is written only if what remains is enough for a first part of it: all of an atom, with two
 * places for its size, all of a primitive, the head of a lambda and a byte, two bytes of a list.  Closing
 * parentheses are written unchecked.  What remains is a 16-bit number, so once a closing parenthesis has
 * passed the limit it is large again, and nothing is refused any more.
 */
module EmitLimit {
  import opened Bytes
  import opened Trees
  import opened Encoding

  const WORD: int := 65536

  /** A value as a uint16_t. */
  function Word(n: int): nat {
    n % WORD
  }

  /**
   * `t` is refused where `r` bytes remain: some part of it that begins before the limit needs more than
   * remains there.  A negative `r` says that the limit is passed already.
   */
  predicate Refused(t: Tree, r: int) {
    match t
    case Null => false
    case Nil => 0 <= r < 2
    case Atom(name) => 0 <= r < |name| + 3
    case List(a, d) => 0 <= r < 2 || Refused(a, r - 1) || RefusedRest(d, r - 1 - |Encode(a)|)
    case Lambda(a, e) => 0 <= r < 10 || Refused(a, r - 9) || Refused(e, r - 9 - |Encode(a)|)
    case Prim(_) => 0 <= r < 13
  }

  predicate RefusedRest(t: Tree, r: int) {
    match t
    case List(a, d) => Refused(a, r) || RefusedRest(d, r - |Encode(a)|)
    case _ => false
  }

  /** An atom whose size takes one place: it is refused where it would fit exactly. */
  predicate Tight(t: Tree) {
    t.Atom? && |t.name| < 10
  }

  lemma NameCode(name: seq<byte>)
    requires |name| <= ATOM_SIZE_LIMIT
    ensures |Encode(Atom(name))| == |name| + if |name| < 10 then 2 else 3
  {
    if |name| >= 10 {
      assert |Decimal(|name| / 10)| == 1;
    }
  }

  lemma Heads()
    ensures |Ascii("(6:lambda")| == 9 && |Ascii("(9:primitive)")| == 13
  {
  }

  /** A value is refused at its first byte. */
  lemma RefusedFirst(t: Tree)
    requires t != Null
    ensures Encode(t) != [] && Refused(t, 0)
  {
    Heads();
  }

  /** It is refused up to its last byte, and the tight atoms at one byte more. */
  lemma {:induction false} RefusedWithin(t: Tree, r: int)
    requires ShortNames(t)
    ensures Refused(t, r) ==> 0 <= r <= |Encode(t)|
    ensures Refused(t, |Encode(t)|) <==> Tight(t)
    decreases t, 1
  {
    match t {
      case Atom(name) => NameCode(name);
      case List(a, d) =>
        ListLength(t);
        RefusedWithin(a, r - 1);
        RefusedRestWithin(d, r - 1 - |Encode(a)|);
        RefusedWithin(a, |Encode(t)| - 1);
        RefusedRestWithin(d, |Encode(t)| - 1 - |Encode(a)|);
      case Lambda(a, e) => LambdaWithin(t, r);
      case Prim(_) => Heads();
      case _ =>
    }
  }

  lemma {:induction false} LambdaWithin(t: Tree, r: int)
    requires t.Lambda? && ShortNames(t)
    ensures Refused(t, r) ==> 0 <= r <= |Encode(t)|
    ensures !Refused(t, |Encode(t)|)
    decreases t, 0
  {
    Heads();
    var a, e := t.arguments, t.expression;
    RefusedWithin(a, r - 9);
    RefusedWithin(e, r - 9 - |Encode(a)|);
    RefusedWithin(a, |Encode(t)| - 9);
    RefusedWithin(e, |Encode(t)| - 9 - |Encode(a)|);
  }

  lemma {:induction false} RefusedRestWithin(t: Tree, r: int)
    requires ShortNames(t)
    ensures RefusedRest(t, r) ==> 0 <= r <= |EncodeRest(t)|
    decreases t, 0
  {
    if t.List? {
      RefusedWithin(t.car, r);
      RefusedRestWithin(t.cdr, r - |Encode(t.car)|);
    }
  }

  lemma ListLength(t: Tree)
    requires t.List?
    ensures |Encode(t)| == 1 + |Encode(t.car)| + |EncodeRest(t.cdr)| + 1
  {
  }

  /** With a byte more than the encoding nothing is refused. */
  lemma RoomEnough(t: Tree, r: nat)
    requires ShortNames(t) && r > |Encode(t)|
    ensures !Refused(t, r)
  {
    RefusedWithin(t, r);
  }

  // ---------------------------------------------------------------- passing the limit

  /** The test before the closing parenthesis reaches it: that of the last element, or of the head before it. */
  predicate Reached(reached: bool, t: Tree)
    decreases t
  {
    match t
    case List(a, d) => Reached(if a.Null? then reached else Tight(a), d)
    case _ => reached
  }

  /** Byte number `r` of the encoding is a closing parenthesis that no test reaches. */
  predicate Slips(t: Tree, r: int) {
    match t
    case List(a, d) =>
      || (r == |Encode(t)| - 1 && !Reached(true, t))
      || Slips(a, r - 1) || SlipsRest(d, r - 1 - |Encode(a)|)
    case Lambda(a, e) =>
      || (r == |Encode(t)| - 1 && !Reached(true, List(a, List(e, Null))))
      || Slips(a, r - 9) || Slips(e, r - 9 - |Encode(a)|)
    case _ => false
  }

  predicate SlipsRest(t: Tree, r: int) {
    match t
    case List(a, d) => Slips(a, r) || SlipsRest(d, r - |Encode(a)|)
    case _ => false
  }

  /** A lambda is written like a list of its two parts, behind its head. */
  function Parts(t: Tree): Tree
    requires t.Lambda?
  {
    List(t.arguments, List(t.expression, Null))
  }

  lemma ListByRest(t: Tree, r: int)
    requires t.List?
    ensures Encode(t) == [OPEN] + EncodeRest(t) + [CLOSE]
    ensures Refused(t, r) <==> 0 <= r < 2 || RefusedRest(t, r - 1)
    ensures Slips(t, r) <==> (r == |Encode(t)| - 1 && !Reached(true, t)) || SlipsRest(t, r - 1)
  {
  }

  lemma PartsCode(t: Tree)
    requires t.Lambda?
    ensures EncodeRest(Parts(t)) == Encode(t.arguments) + Encode(t.expression)
    ensures |Encode(t)| == 9 + |EncodeRest(Parts(t))| + 1 && Encode(t)[|Encode(t)| - 1] == CLOSE
    ensures Encode(t)[9..|Encode(t)| - 1] == EncodeRest(Parts(t))
  {
    Heads();
    var x, y, head := Encode(t.arguments), Encode(t.expression), Ascii("(6:lambda");
    assert Encode(t) == head + x + y + [CLOSE];
    assert EncodeRest(List(t.expression, Null)) == y + [] == y;
    hide Encode, Ascii;
    assert (head + x + y + [CLOSE])[9..|head + x + y|] == x + y;
  }

  lemma LambdaByRest(t: Tree, r: int)
    requires t.Lambda?
    ensures Refused(t, r) <==> 0 <= r < 10 || RefusedRest(Parts(t), r - 9)
    ensures Slips(t, r) <==> (r == |Encode(t)| - 1 && !Reached(true, Parts(t))) || SlipsRest(Parts(t), r - 9)
    ensures ShortNames(t) ==> ShortNames(Parts(t))
    ensures Weight(Parts(t)) < Weight(t)
  {
    hide Encode, EncodeRest;
    var x, last := Encode(t.arguments), List(t.expression, Null);
    assert RefusedRest(last, r - 9 - |x|) == Refused(t.expression, r - 9 - |x|);
    assert SlipsRest(last, r - 9 - |x|) == Slips(t.expression, r - 9 - |x|);
    assert ShortNames(t) ==> ShortNames(last);
    assert Weight(last) == 1 + Weight(t.expression);
  }

  lemma {:induction false} SlipsWithin(t: Tree, r: int)
    ensures Slips(t, r) ==> 0 <= r < |Encode(t)| && Encode(t)[r] == CLOSE
    decreases Weight(t), 1
  {
    if t.List? {
      ListByRest(t, r);
      SlipsRestWithin(t, r - 1);
    } else if t.Lambda? {
      PartsCode(t);
      LambdaByRest(t, r);
      SlipsRestWithin(Parts(t), r - 9);
    }
  }

  lemma {:induction false} SlipsRestWithin(t: Tree, r: int)
    ensures SlipsRest(t, r) ==> 0 <= r < |EncodeRest(t)| && EncodeRest(t)[r] == CLOSE
    decreases Weight(t), 0
  {
    if t.List? {
      SlipsWithin(t.car, r);
      SlipsRestWithin(t.cdr, r - |Encode(t.car)|);
    }
  }

  /**
   * A limit inside the encoding is passed, and everything written all the same, exactly if the first byte
   * that does not fit is a closing parenthesis no test reaches: one behind another closing parenthesis, or
   * behind a name of ten bytes or more.
   */
  lemma {:induction false} PassedAtClose(t: Tree, r: int)
    requires ShortNames(t) && 0 <= r < |Encode(t)|
    ensures !Refused(t, r) <==> Slips(t, r)
    decreases Weight(t), 1
  {
    match t {
      case Atom(name) => NameCode(name);
      case List(_, _) =>
        ListByRest(t, r);
        RestPassedWithin(t, r - 1);
      case Lambda(_, _) =>
        PartsCode(t);
        LambdaByRest(t, r);
        RestPassedWithin(Parts(t), r - 9);
      case Prim(_) => Heads();
      case _ =>
    }
  }

  /** The elements of a list, seen from behind its head. */
  lemma {:induction false} RestPassedWithin(t: Tree, r: int)
    requires ShortNames(t) && r <= |EncodeRest(t)|
    ensures 0 <= r < |EncodeRest(t)| ==> (!RefusedRest(t, r) <==> SlipsRest(t, r))
    ensures r == |EncodeRest(t)| > 0 ==> (RefusedRest(t, r) <==> Reached(true, t))
    ensures EncodeRest(t) == [] ==> Reached(true, t)
    ensures r < 0 || r == |EncodeRest(t)| ==> !SlipsRest(t, r)
    ensures EncodeRest(t) != [] ==> !SlipsRest(t, 0)
    ensures r < 0 ==> !RefusedRest(t, r)
    decreases Weight(t), 0, 1
  {
    SlipsRestWithin(t, r);
    RefusedRestWithin(t, r);
    RestFirst(t);
    RestPassed(t, if r < 0 then 0 else r, true);
    RestPassed(t, 0, true);
  }

  lemma {:induction false} RestFirst(t: Tree)
    ensures EncodeRest(t) != [] ==> RefusedRest(t, 0)
  {
    if t.List? {
      if t.car.Null? {
        RestFirst(t.cdr);
      } else {
        RefusedFirst(t.car);
      }
    }
  }

  /** One step of the functions on the elements of a list. */
  lemma RestStep(t: Tree, r: int, reached: bool)
    requires t.List?
    ensures EncodeRest(t) == Encode(t.car) + EncodeRest(t.cdr)
    ensures RefusedRest(t, r) <==> Refused(t.car, r) || RefusedRest(t.cdr, r - |Encode(t.car)|)
    ensures SlipsRest(t, r) <==> Slips(t.car, r) || SlipsRest(t.cdr, r - |Encode(t.car)|)
    ensures Reached(reached, t) == Reached(if t.car.Null? then reached else Tight(t.car), t.cdr)
    ensures ShortNames(t) ==> ShortNames(t.car) && ShortNames(t.cdr)
    ensures Weight(t.car) < Weight(t) && Weight(t.cdr) < Weight(t)
    ensures t.car.Null? ==> Encode(t.car) == [] && !Refused(t.car, r) && !Slips(t.car, r)
  {
  }

  lemma RestDone(t: Tree, r: int, reached: bool)
    requires !t.List?
    ensures EncodeRest(t) == [] && !RefusedRest(t, r) && !SlipsRest(t, r) && Reached(reached, t) == reached
  {
  }

  /** What RestPassed states. */
  predicate PassedRest(t: Tree, r: nat, reached: bool) {
    && (r < |EncodeRest(t)| ==> (!RefusedRest(t, r) <==> SlipsRest(t, r)))
    && (RefusedRest(t, |EncodeRest(t)|) <==> EncodeRest(t) != [] && Reached(reached, t))
    && (EncodeRest(t) == [] ==> Reached(reached, t) == reached)
  }

  lemma {:induction false} RestPassed(t: Tree, r: nat, reached: bool)
    requires ShortNames(t) && r <= |EncodeRest(t)|
    ensures PassedRest(t, r, reached)
    decreases Weight(t), 0, 0
  {
    hide Encode, EncodeRest, Refused, RefusedRest, Slips, SlipsRest, Reached, ShortNames, Weight, Tight;
    if !t.List? {
      RestDone(t, |EncodeRest(t)|, reached);
    } else {
      RestStep(t, r, reached);
      var x := |Encode(t.car)|;
      if t.car.Null? {
        RestStep(t, |EncodeRest(t)|, reached);
        RestPassed(t.cdr, r, reached);
      } else {
        RestPassed(t.cdr, if r < x then 0 else r - x, Tight(t.car));
        if r < x {
          PassedAtClose(t.car, r);
        }
        OtherHead(t, r, reached);
      }
    }
  }

  /** The step for a head that is not NULL. */
  lemma OtherHead(t: Tree, r: nat, reached: bool)
    requires t.List? && t.car != Null && ShortNames(t) && r <= |EncodeRest(t)|
    requires var x := |Encode(t.car)|;
      && PassedRest(t.cdr, if r < x then 0 else r - x, Tight(t.car))
      && (r < x ==> (!Refused(t.car, r) <==> Slips(t.car, r)))
    ensures PassedRest(t, r, reached)
  {
    hide Encode, EncodeRest, Refused, RefusedRest, Slips, SlipsRest, Reached, ShortNames, Weight, Tight;
    var a, d, x, n := t.car, t.cdr, |Encode(t.car)|, |EncodeRest(t)|;
    RestStep(t, r, reached);
    RestStep(t, n, reached);
    RestFirst(d);
    RefusedFirst(a);
    RefusedWithin(a, r);
    RefusedWithin(a, n);
    SlipsWithin(a, r);
    RefusedRestWithin(d, r - x);
    SlipsRestWithin(d, r - x);
  }

  /**
   * An example: a list that holds a list of a name of 16 bytes, and then anything.  Where 21 bytes remain,
   * the inner parenthesis is byte number 21, and all of the rest is written behind the limit.
   */
  lemma PassedExample(name: seq<byte>, rest: Tree)
    requires |name| == 16 && ShortNames(rest)
    ensures var t := List(List(Atom(name), Null), List(rest, Null));
            !Refused(t, 21) && |Encode(t)| == 23 + |Encode(rest)|
  {
    var inner, last := List(Atom(name), Null), List(rest, Null);
    NameCode(name);
    assert |Encode(inner)| == 21;
    assert EncodeRest(last) == Encode(rest) + [];
    RefusedWithin(rest, -1);
    assert !Refused(Atom(name), 19) && !RefusedRest(Null, 19 - |Encode(Atom(name))|);
    assert !Refused(inner, 20);
    assert RefusedRest(last, -1) == (Refused(rest, -1) || RefusedRest(Null, -1 - |Encode(rest)|));
  }

  /**
   * Sixteen bits are enough to write `n` bytes where `r` remain: there are fewer than 65536, or the
   * limit, not yet passed, will refuse some of them; or, once it is passed, so much remains again.
   */
  predicate Fits16(n: nat, r: int, refused: bool) {
    -WORD < r < WORD && if r >= 0 then n < WORD || refused else WORD + r > n
  }

  /** After `k` of the bytes, `m` more. */
  lemma FitsLater(n: nat, r: int, refused: bool, k: nat, m: nat, refused': bool)
    requires Fits16(n, r, refused) && k + m < n
    requires refused ==> r >= k && (refused' || m <= r - k)
    ensures Fits16(m, r - k, refused')
  {
  }

  lemma WordLater(r: int, k: int)
    ensures Word(Word(r) - k) == Word(r - k)
  {
    assert Word(r) == r - WORD * (r / WORD);
    Shifted(r - k, r / WORD);
  }

  lemma Shifted(x: int, q: int)
    ensures Word(x - WORD * q) == Word(x)
  {
  }
}
