/** Bytes, and the few facts about byte sequences every other module needs. */
module Bytes {
  type byte = x: int | 0 <= x < 256

  /** The bytes of a C string literal, without its terminating zero. */
  function Ascii(s: string): (r: seq<byte>)
    ensures |r| == |s|
    ensures forall i :: 0 <= i < |s| && s[i] < 128 as char ==> r[i] == s[i] as int
  {
    seq(|s|, i requires 0 <= i < |s| => s[i] as int % 256)
  }

  /** All pieces laid end to end. */
  function Flat(pieces: seq<seq<byte>>): seq<byte> {
    if pieces == [] then [] else pieces[0] + Flat(pieces[1..])
  }

  lemma {:induction false} FlatAppend(a: seq<seq<byte>>, b: seq<seq<byte>>)
    ensures Flat(a + b) == Flat(a) + Flat(b)
  {
    if a == [] {
      assert a + b == b;
    } else {
      calc {
        Flat(a + b);
        { assert (a + b)[0] == a[0] && (a + b)[1..] == a[1..] + b; }
        a[0] + Flat(a[1..] + b);
        { FlatAppend(a[1..], b); }
        a[0] + (Flat(a[1..]) + Flat(b));
        (a[0] + Flat(a[1..])) + Flat(b);
        Flat(a) + Flat(b);
      }
    }
  }

  /** Piece `i` sits right after the pieces before it. */
  lemma {:induction false} FlatAround(pieces: seq<seq<byte>>, i: nat)
    requires i < |pieces|
    ensures Flat(pieces) == Flat(pieces[..i]) + pieces[i] + Flat(pieces[i + 1..])
    ensures Flat(pieces[..i + 1]) == Flat(pieces[..i]) + pieces[i]
  {
    assert pieces == pieces[..i] + ([pieces[i]] + pieces[i + 1..]);
    FlatAppend(pieces[..i], [pieces[i]] + pieces[i + 1..]);
    FlatAppend([pieces[i]], pieces[i + 1..]);
    assert Flat([pieces[i]]) == pieces[i] + Flat([pieces[i]][1..]);
    assert pieces[..i + 1] == pieces[..i] + [pieces[i]];
    FlatAppend(pieces[..i], [pieces[i]]);
  }
}
