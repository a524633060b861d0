/** UTF-8 as Python's strict codec writes and reads it. */
module Utf8 {
  import opened Words
  import opened Options

  /** A Unicode scalar value. */
  type scalar = c: int | 0 <= c < 0xD800 || 0xE000 <= c < 0x11_0000

  function Unit(c: scalar): (b: seq<byte>)
    ensures 1 <= |b| <= 4
  {
    if c < 0x80 then [c]
    else if c < 0x800 then [0xC0 + c / 64, Low(c)]
    else if c < 0x1_0000 then [0xE0 + c / 64 / 64, Low(c / 64), Low(c)]
    else [0xF0 + c / 64 / 64 / 64, Low(c / 64 / 64), Low(c / 64), Low(c)]
  }

  /** A continuation byte holds six bits. */
  function Low(c: nat): byte {
    0x80 + c % 64
  }

  function Encode(s: seq<scalar>): seq<byte> {
    if s == [] then [] else Unit(s[0]) + Encode(s[1..])
  }

  predicate Continues(b: byte) {
    0x80 <= b < 0xC0
  }

  predicate IsScalar(c: int) {
    0 <= c < 0xD800 || 0xE000 <= c < 0x11_0000
  }

  function More(high: int, b: byte): int {
    high * 64 + (b - 0x80)
  }

  /** The first scalar value in b and how many bytes it takes. Overlong forms, surrogates and cut
      off forms are refused. */
  function First(b: seq<byte>): (r: Option<(scalar, nat)>)
    ensures r.Some? ==> 1 <= r.value.1 <= |b|
  {
    if b == [] then None
    else if b[0] < 0x80 then Some((b[0], 1))
    else if 0xC0 <= b[0] < 0xE0 && |b| >= 2 && Continues(b[1]) then
      var c := More(b[0] - 0xC0, b[1]);
      if 0x80 <= c then Some((c, 2)) else None
    else if 0xE0 <= b[0] < 0xF0 && |b| >= 3 && Continues(b[1]) && Continues(b[2]) then
      var c := More(More(b[0] - 0xE0, b[1]), b[2]);
      if 0x800 <= c && IsScalar(c) then Some((c, 3)) else None
    else if 0xF0 <= b[0] < 0xF8 && |b| >= 4 && Continues(b[1]) && Continues(b[2]) && Continues(b[3]) then
      var c := More(More(More(b[0] - 0xF0, b[1]), b[2]), b[3]);
      if 0x1_0000 <= c && IsScalar(c) then Some((c, 4)) else None
    else None
  }

  /** The text that b encodes, if all of it is well-formed. */
  function Decode(b: seq<byte>): Option<seq<scalar>> {
    if b == [] then Some([])
    else
      match First(b)
      case None => None
      case Some((c, n)) =>
        match Decode(b[n..])
        case None => None
        case Some(rest) => Some([c] + rest)
  }

  // ----- One scalar value -----

  lemma MoreOfLow(c: nat)
    ensures More(c / 64, Low(c)) == c && Continues(Low(c))
  {
  }

  lemma LowOfMore(high: nat, b: byte)
    requires Continues(b)
    ensures More(high, b) >= 0 && More(high, b) / 64 == high && Low(More(high, b)) == b
  {
  }

  lemma FirstOfPair(b: seq<byte>, c: scalar)
    requires |b| >= 2 && 0x80 <= c < 0x800 && b[..2] == Unit(c)
    ensures First(b) == Some((c, 2))
  {
    assert b[0] == b[..2][0] && b[1] == b[..2][1];
    MoreOfLow(c);
  }

  lemma FirstOfTriple(b: seq<byte>, c: scalar)
    requires |b| >= 3 && 0x800 <= c < 0x1_0000 && b[..3] == Unit(c)
    ensures First(b) == Some((c, 3))
  {
    assert b[0] == b[..3][0] && b[1] == b[..3][1] && b[2] == b[..3][2];
    MoreOfLow(c);
    MoreOfLow(c / 64);
  }

  lemma FirstOfQuadruple(b: seq<byte>, c: scalar)
    requires |b| >= 4 && 0x1_0000 <= c && b[..4] == Unit(c)
    ensures First(b) == Some((c, 4))
  {
    assert b[0] == b[..4][0] && b[1] == b[..4][1] && b[2] == b[..4][2] && b[3] == b[..4][3];
    MoreOfLow(c);
    MoreOfLow(c / 64);
    MoreOfLow(c / 64 / 64);
  }

  lemma FrontOf(a: seq<byte>, b: seq<byte>)
    ensures (a + b)[..|a|] == a
  {
  }

  lemma FirstOfUnit(c: scalar, rest: seq<byte>)
    ensures First(Unit(c) + rest) == Some((c, |Unit(c)|))
  {
    FrontOf(Unit(c), rest);
    if c < 0x80 {
      assert (Unit(c) + rest)[0] == c;
    } else if c < 0x800 {
      FirstOfPair(Unit(c) + rest, c);
    } else if c < 0x1_0000 {
      FirstOfTriple(Unit(c) + rest, c);
    } else {
      FirstOfQuadruple(Unit(c) + rest, c);
    }
  }

  lemma UnitOfFirst(b: seq<byte>)
    requires First(b).Some?
    ensures Unit(First(b).value.0) == b[..First(b).value.1]
  {
    var (c, n) := First(b).value;
    if n > 1 {
      var high := b[0] - (if n == 2 then 0xC0 else if n == 3 then 0xE0 else 0xF0);
      LowOfMore(high, b[1]);
      if n > 2 {
        LowOfMore(More(high, b[1]), b[2]);
        if n > 3 { LowOfMore(More(More(high, b[1]), b[2]), b[3]); }
      }
    }
  }

  /** One scalar value of each length. */
  lemma Samples()
    ensures Unit(0x41) == [0x41] && Unit(0xE9) == [0xC3, 0xA9]
    ensures Unit(0x20AC) == [0xE2, 0x82, 0xAC] && Unit(0x1F600) == [0xF0, 0x9F, 0x98, 0x80]
  {
  }

  // ----- Whole texts -----

  lemma {:induction false} DecodeEncode(s: seq<scalar>)
    ensures Decode(Encode(s)) == Some(s)
  {
    if s != [] {
      FirstOfUnit(s[0], Encode(s[1..]));
      assert Encode(s)[|Unit(s[0])|..] == Encode(s[1..]);
      DecodeEncode(s[1..]);
      assert [s[0]] + s[1..] == s;
    }
  }

  lemma {:induction false} EncodeDecode(b: seq<byte>)
    requires Decode(b).Some?
    ensures Encode(Decode(b).value) == b
  {
    if b != [] {
      var n := First(b).value.1;
      UnitOfFirst(b);
      EncodeDecode(b[n..]);
      assert b[..n] + b[n..] == b;
    }
  }

  lemma Nest(a: seq<byte>, b: seq<byte>, c: seq<byte>)
    ensures (a + b) + c == a + (b + c)
  {
  }

  lemma UnitPrefixFree(c: scalar, d: scalar, x: seq<byte>, y: seq<byte>)
    requires Unit(c) + x == Unit(d) + y
    ensures c == d && x == y
  {
    FirstOfUnit(c, x);
    FirstOfUnit(d, y);
    assert x == (Unit(c) + x)[|Unit(c)|..];
    assert y == (Unit(d) + y)[|Unit(d)|..];
  }

  /** Texts of the same length are told apart by any bytes that begin with their encodings. */
  lemma {:induction false} EncodePrefixFree(s: seq<scalar>, t: seq<scalar>, x: seq<byte>, y: seq<byte>)
    requires |s| == |t| && Encode(s) + x == Encode(t) + y
    ensures s == t && x == y
  {
    if s == [] {
      assert [] + x == x && [] + y == y;
    } else {
      Nest(Unit(s[0]), Encode(s[1..]), x);
      Nest(Unit(t[0]), Encode(t[1..]), y);
      UnitPrefixFree(s[0], t[0], Encode(s[1..]) + x, Encode(t[1..]) + y);
      EncodePrefixFree(s[1..], t[1..], x, y);
      assert s == [s[0]] + s[1..] && t == [t[0]] + t[1..];
    }
  }

  lemma {:induction false} EncodePrefix(s: seq<scalar>, t: seq<scalar>)
    requires Encode(s) <= Encode(t)
    ensures s <= t && (|Encode(s)| < |Encode(t)| ==> |s| < |t|)
  {
    if s != [] {
      var x := Encode(t)[|Encode(s)|..];
      assert Encode(t) == Encode(s) + x;
      Nest(Unit(s[0]), Encode(s[1..]), x);
      UnitPrefixFree(s[0], t[0], Encode(s[1..]) + x, Encode(t[1..]));
      EncodePrefix(s[1..], t[1..]);
    }
  }

  // ----- ASCII -----

  predicate Ascii(s: seq<scalar>) {
    forall i :: 0 <= i < |s| ==> s[i] < 0x80
  }

  /** ASCII, and nothing else, takes one byte for each character. */
  lemma {:induction false} EncodeLength(s: seq<scalar>)
    ensures |Encode(s)| >= |s|
    ensures |Encode(s)| == |s| <==> Ascii(s)
  {
    if s != [] {
      EncodeLength(s[1..]);
      assert Ascii(s) <==> s[0] < 0x80 && Ascii(s[1..]);
    }
  }

  lemma {:induction false} EncodeAscii(s: seq<scalar>)
    requires Ascii(s)
    ensures |Encode(s)| == |s| && forall i :: 0 <= i < |s| ==> Encode(s)[i] == s[i]
  {
    if s != [] {
      EncodeAscii(s[1..]);
      assert Encode(s) == [s[0]] + Encode(s[1..]);
    }
  }

  /** ASCII cut anywhere is still text. */
  lemma AsciiCut(s: seq<scalar>, n: nat)
    requires Ascii(s) && n <= |s|
    ensures n <= |Encode(s)| && Decode(Encode(s)[..n]).Some?
  {
    EncodeAscii(s);
    EncodeAscii(s[..n]);
    assert Encode(s)[..n] == Encode(s[..n]);
    DecodeEncode(s[..n]);
  }
}
