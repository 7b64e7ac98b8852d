/**
 * Which rows of the state table of src/common/state/machine.c a message is taken by: a name, a list, no
 * expression at all, or bytes that cannot be read.
 */
module Matching {
  import opened Bytes
  import opened Trees
  import opened Semantics
  import opened Encoding
  import opened Interface
  import opened StateMachine
  import RoundTrip

  /** All characters are digits of the radix. */
  predicate AllDigits(name: seq<byte>, hexadecimal: bool) {
    forall i :: 0 <= i < |name| ==>
      name[i] in if hexadecimal then Ascii("0123456789ABCDEFabcdef") else Ascii("0123456789")
  }

  lemma DigitSets(ch: byte)
    ensures ch in Ascii("0123456789") <==> 48 <= ch <= 57
    ensures ch in Ascii("0123456789ABCDEFabcdef") <==> 48 <= ch <= 57 || 65 <= ch <= 70 || 97 <= ch <= 102
  {
    var ten, sixteen := Ascii("0123456789"), Ascii("0123456789ABCDEFabcdef");
    assert ten == [48, 49, 50, 51, 52, 53, 54, 55, 56, 57];
    assert sixteen == ten + [65, 66, 67, 68, 69, 70] + [97, 98, 99, 100, 101, 102];
  }

  /** The rows that take a message that is a name. */
  predicate TakesName(m: Match, name: seq<byte>) {
    match m
    case MatchAny => true
    case MatchErrorParse => false
    case MatchNil => false
    case MatchTrue => name == [35, 116]
    case MatchAtom => true
    case MatchAtomNumber(hexadecimal) => AllDigits(name, hexadecimal)
    case MatchAtomSymbol(symbol) => symbol == name
    case MatchList => false
    case MatchListNumber(_) => false
    case MatchListSymbol(_) => false
    case MatchUserDefined => false
  }

  /** The rows that take a message that is a list: a number row, too, since only atoms are looked at. */
  predicate TakesList(m: Match, head: Tree) {
    match m
    case MatchAny => true
    case MatchErrorParse => false
    case MatchNil => false
    case MatchTrue => false
    case MatchAtom => false
    case MatchAtomNumber(_) => true
    case MatchAtomSymbol(_) => false
    case MatchList => true
    case MatchListNumber(hexadecimal) => head.Atom? ==> AllDigits(head.name, hexadecimal)
    case MatchListSymbol(symbol) => head.Atom? && head.name == symbol
    case MatchUserDefined => false
  }

  /** The rows that take no expression at all, with or without an error. */
  predicate TakesNothing(m: Match, failed: bool) {
    match m
    case MatchAny => true
    case MatchErrorParse => failed
    case MatchNil => !failed
    case MatchAtomNumber(_) => true
    case _ => false
  }

  lemma NumberDigits(t: Tree, hexadecimal: bool)
    ensures IsNumber(t, hexadecimal) <==> (t.Atom? ==> AllDigits(t.name, hexadecimal))
  {
    if t.Atom? {
      forall i | 0 <= i < |t.name|
        ensures IsNumeral(t.name[i], hexadecimal) <==>
                t.name[i] in if hexadecimal then Ascii("0123456789ABCDEFabcdef") else Ascii("0123456789")
      {
        DigitSets(t.name[i]);
      }
    }
  }

  lemma NameTaken(m: Match, name: seq<byte>)
    ensures Matches(m, Atom(name), NoError) <==> TakesName(m, name)
  {
    assert Ascii("#t") == [35, 116];
    if m.MatchAtomNumber? {
      NumberDigits(Atom(name), m.hexadecimal);
    }
  }

  lemma ListTaken(m: Match, t: Tree)
    requires t.List?
    ensures Matches(m, t, NoError) <==> TakesList(m, t.car)
  {
    if m.MatchListNumber? {
      NumberDigits(t.car, m.hexadecimal);
    }
  }

  lemma NothingTaken(m: Match, error: Error)
    ensures Matches(m, Null, error) <==> TakesNothing(m, error != NoError)
  {
  }

  /** A name that can be read, whatever follows it, goes to the first row of the state that takes it. */
  lemma NameMessage(m: Protocol, state: nat, name: seq<byte>, tail: seq<byte>)
    requires |name| <= 64 && m.world.cells < 160 && m.world.bytes + |name| <= 256
    ensures var i := RowFor(m, state, Encode(Atom(name)) + tail);
      && (i < |m.rows| ==> m.rows[i].state == state && TakesName(m.rows[i].match_, name))
      && forall j :: 0 <= j < i ==> !(m.rows[j].state == state && TakesName(m.rows[j].match_, name))
  {
    var message := Encode(Atom(name)) + tail;
    RoundTrip.ParseEncode(message, ParseState(0, NoError, m.world.cells, m.world.bytes), Atom(name), tail);
    forall r: Row ensures Matches(r.match_, Atom(name), NoError) <==> TakesName(r.match_, name) {
      NameTaken(r.match_, name);
    }
    assert Read(m.world, message).0 == Atom(name) && Read(m.world, message).1.error == NoError;
  }

  /** So does a list. */
  lemma ListMessage(m: Protocol, state: nat, t: Tree, tail: seq<byte>)
    requires t.List? && RoundTrip.Solid(t) && ShortNames(t) && tail != []
    requires m.world.cells + CellsOf(t) <= 160 && m.world.bytes + BytesOf(t) <= 256
    ensures var i := RowFor(m, state, Encode(t) + tail);
      && (i < |m.rows| ==> m.rows[i].state == state && TakesList(m.rows[i].match_, t.car))
      && forall j :: 0 <= j < i ==> !(m.rows[j].state == state && TakesList(m.rows[j].match_, t.car))
  {
    var message := Encode(t) + tail;
    RoundTrip.RoundTrip(t, tail, ParseState(0, NoError, m.world.cells, m.world.bytes));
    forall r: Row ensures Matches(r.match_, t, NoError) <==> TakesList(r.match_, t.car) {
      ListTaken(r.match_, t);
    }
    assert Read(m.world, message).0 == t && Read(m.world, message).1.error == NoError;
  }

  /** And a message without an expression: (), or bytes of which nothing could be read. */
  lemma NoMessage(m: Protocol, state: nat, message: seq<byte>)
    requires Read(m.world, message).0 == Null
    ensures var i, failed := RowFor(m, state, message), Read(m.world, message).1.error != NoError;
      && (i < |m.rows| ==> m.rows[i].state == state && TakesNothing(m.rows[i].match_, failed))
      && forall j :: 0 <= j < i ==> !(m.rows[j].state == state && TakesNothing(m.rows[j].match_, failed))
  {
    var error := Read(m.world, message).1.error;
    forall r: Row ensures Matches(r.match_, Null, error) <==> TakesNothing(r.match_, error != NoError) {
      NothingTaken(r.match_, error);
    }
  }

  /** () is read as no expression. */
  lemma EmptyMessage(w: World, tail: seq<byte>)
    requires tail != [] && w.cells <= 160 && w.bytes <= 256
    ensures var (t, s) := Read(w, [40, 41] + tail); t == Null && s.error == NoError
  {
    RoundTrip.ParseEncode([40, 41] + tail, ParseState(0, NoError, w.cells, w.bytes), Nil, tail);
  }
}
