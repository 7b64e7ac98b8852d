/**
 * What a server answers to calls of its primitives, byte by byte, and what its answers look like.
 */
module ReplyLaws {
  import opened Bytes
  import opened Trees
  import opened Semantics
  import opened Encoding
  import opened EmitLimit
  import opened Interface
  import opened DataMessages
  import opened PrimitiveLaws
  import Laws
  import RoundTrip
  import Session
  import Startup

  // ---------------------------------------------------------------- the form of a reply

  /** An answer with a value is its encoding, and a line end exactly if that has fewer than 255 bytes. */
  lemma ValueLine(w: World, message: seq<byte>)
    requires Served(w, message) && Verdict(w, message) == NoError
    ensures Run(w, message).Value?
    ensures var code := Encode(Run(w, message).value);
            Reply(w, message) == if |code| < 255 then code + [13, 10] else code
  {
    hide Read, Eval, Encode;
  }

  function ErrorText(error: Error): seq<byte> {
    match error
    case NoError => Ascii("none")
    case EndOfInput => Ascii("end of input")
    case LimitEmit => Ascii("emit output limit")
    case LimitExpressions => Ascii("expression limit")
    case LimitMemory => Ascii("memory limit")
    case LimitToken => Ascii("atom size >64")
    case TokenTruncated => Ascii("token truncated")
    case NotAToken => Ascii("must be 'n:token'")
  }

  /** The size of the text, as it is written. */
  function SizeText(error: Error): seq<byte> {
    match error
    case NoError => [52, 58]
    case EndOfInput => [49, 50, 58]
    case LimitEmit => [49, 55, 58]
    case LimitExpressions => [49, 54, 58]
    case LimitMemory => [49, 50, 58]
    case LimitToken => [49, 51, 58]
    case TokenTruncated => [49, 53, 58]
    case NotAToken => [49, 55, 58]
  }

  /** An answer with an error is the encoding of the list (error text), and a line end. */
  lemma ErrorLine(error: Error)
    ensures ErrorMessage(error) == Encode(List(Atom(Ascii("error")), List(Atom(ErrorText(error)), Null))) + [13, 10]
  {
    hide Ascii, ErrorMessage, ErrorText, SizeText;
    ErrorCode(ErrorText(error));
    TextCode(error);
    LiteralMessage(error);
    var x := SizeText(error) + ErrorText(error);
    assert Ascii("(5:error") + x + [41] + [13, 10] == Ascii("(5:error") + x + [41, 13, 10];
  }

  lemma ErrorCode(text: seq<byte>)
    ensures Encode(List(Atom(Ascii("error")), List(Atom(text), Null))) == Ascii("(5:error") + Encode(Atom(text)) + [41]
  {
    var e := Ascii("error");
    assert Ascii("(5:error") == [40] + ([53, 58] + e);
    assert Encode(Atom(e)) == [53, 58] + e;
    var x := Encode(Atom(text));
    assert EncodeRest(List(Atom(text), Null)) == x + [] == x;
    hide Ascii;
    assert [40] + (([53, 58] + e) + x) + [41] == [40] + ([53, 58] + e) + x + [41];
  }

  lemma TextCode(error: Error)
    ensures Encode(Atom(ErrorText(error))) == SizeText(error) + ErrorText(error)
  {
    var n := |ErrorText(error)|;
    assert n < 10 || (10 <= n < 20 && Decimal(n / 10) == [49]);
    hide Ascii;
  }

  lemma Glued(whole: string, size: string, text: string)
    requires whole == "(5:error" + (size + text) + ")\r\n"
    ensures Ascii(whole) == Ascii("(5:error") + (Ascii(size) + Ascii(text)) + [41, 13, 10]
  {
    assert Ascii(")\r\n") == [41, 13, 10];
    Joined(size, text);
    Joined("(5:error", size + text);
    Joined("(5:error" + (size + text), ")\r\n");
  }

  lemma Joined(s: string, t: string)
    ensures Ascii(s + t) == Ascii(s) + Ascii(t)
  {
  }

  /** The literals of the source, taken apart. */
  predicate Composed(error: Error) {
    ErrorMessage(error) == Ascii("(5:error") + (SizeText(error) + ErrorText(error)) + [41, 13, 10]
  }

  lemma LiteralMessage(error: Error)
    ensures Composed(error)
  {
    hide Ascii, ErrorMessage, ErrorText, SizeText;
    match error {
      case NoError => LiteralNoError();
      case EndOfInput => LiteralEndOfInput();
      case LimitEmit => LiteralLimitEmit();
      case LimitExpressions => LiteralLimitExpressions();
      case LimitMemory => LiteralLimitMemory();
      case LimitToken => LiteralLimitToken();
      case TokenTruncated => LiteralTokenTruncated();
      case NotAToken => LiteralNotAToken();
    }
  }

  lemma LiteralNoError()
    ensures Composed(NoError)
  {
    assert Ascii("4:") == [52, 58];
    hide Ascii;
    Glued("(5:error4:none)\r\n", "4:", "none");
  }

  lemma LiteralEndOfInput()
    ensures Composed(EndOfInput)
  {
    assert Ascii("12:") == [49, 50, 58];
    hide Ascii;
    Glued("(5:error12:end of input)\r\n", "12:", "end of input");
  }

  lemma LiteralLimitEmit()
    ensures Composed(LimitEmit)
  {
    assert Ascii("17:") == [49, 55, 58];
    hide Ascii;
    Glued("(5:error17:emit output limit)\r\n", "17:", "emit output limit");
  }

  lemma LiteralLimitExpressions()
    ensures Composed(LimitExpressions)
  {
    assert Ascii("16:") == [49, 54, 58];
    hide Ascii;
    Glued("(5:error16:expression limit)\r\n", "16:", "expression limit");
  }

  lemma LiteralLimitMemory()
    ensures Composed(LimitMemory)
  {
    assert Ascii("12:") == [49, 50, 58];
    hide Ascii;
    Glued("(5:error12:memory limit)\r\n", "12:", "memory limit");
  }

  lemma LiteralLimitToken()
    ensures Composed(LimitToken)
  {
    assert Ascii("13:") == [49, 51, 58];
    hide Ascii;
    Glued("(5:error13:atom size >64)\r\n", "13:", "atom size >64");
  }

  lemma LiteralTokenTruncated()
    ensures Composed(TokenTruncated)
  {
    assert Ascii("15:") == [49, 53, 58];
    hide Ascii;
    Glued("(5:error15:token truncated)\r\n", "15:", "token truncated");
  }

  lemma LiteralNotAToken()
    ensures Composed(NotAToken)
  {
    assert Ascii("17:") == [49, 55, 58];
    hide Ascii;
    Glued("(5:error17:must be 'n:token')\r\n", "17:", "must be 'n:token'");
  }
}
