/** The relay token on the command line. */
module HexToken {
  import opened Words

  predicate IsHex(c: char) {
    '0' <= c <= '9' || 'A' <= c <= 'F' || 'a' <= c <= 'f'
  }

  function Digit(c: char): (d: byte)
    requires IsHex(c)
    ensures d < 16
  {
    if c <= '9' then c as int - '0' as int
    else if c <= 'F' then c as int - 'A' as int + 10
    else c as int - 'a' as int + 10
  }

  /** How many characters at the front of s, up to n, are digits. */
  function Digits(s: string, n: nat): (k: nat)
    ensures k <= n && k <= |s| && (forall i :: 0 <= i < k ==> IsHex(s[i]))
    ensures k < n && k < |s| ==> !IsHex(s[k])
    decreases n
  {
    if n == 0 then 0
    else
      var k := Digits(s, n - 1);
      if k == n - 1 && k < |s| && IsHex(s[k]) then n else k
  }

  /** The byte that two digits spell. */
  function Pair(hi: char, lo: char): byte
    requires IsHex(hi) && IsHex(lo)
  {
    Digit(hi) as int * 16 + Digit(lo)
  }

  function Bytes(s: string): seq<byte>
    requires |s| % 2 == 0 && forall i :: 0 <= i < |s| ==> IsHex(s[i])
  {
    seq(|s| / 2, i requires 0 <= i < |s| / 2 => Pair(s[2 * i], s[2 * i + 1]))
  }

  /** The character at i of a C string, which ends in a zero. */
  function At(s: string, i: nat): char
    requires i <= |s|
  {
    if i < |s| then s[i] else '\0'
  }

  /** Fills buf from the digits of str, byte by byte, and stops at the first character that is not
      one. No character is looked at beyond the one that ends the string. The number of digits is
      counted in 32 bits. */
  method ParseHex(buf: array<byte>, str: string, size: nat) returns (ok: bool)
    requires size <= buf.Length && size < 0x8000_0000
    modifies buf
    ensures ok <==> Digits(str, 2 * size) == 2 * size
    ensures var done := Digits(str, 2 * size) / 2;
            buf[..] == Bytes(str[..2 * done]) + old(buf[..])[done..]
  {
    var x: byte := 0;
    ghost var start := buf[..];
    var i := 0;
    while i < size * 2
      invariant i <= size * 2 && Parsed(buf[..], start, str, i, x)
    {
      var c := At(str, i);
      if !IsHex(c) {
        DigitsAre(str, 2 * size, i);
        FilledIs(buf[..], start, str, i / 2);
        return false;
      }
      ParsedNext(buf[..], start, str, i, x);
      x := x * 16 % 0x100 + Digit(c);
      if i % 2 == 1 {
        ghost var before := buf[..];
        buf[i / 2] := x;
        assert buf[..] == before[i / 2 := x];
        x := 0;
      }
      i := i + 1;
    }
    DigitsAre(str, 2 * size, 2 * size);
    FilledIs(buf[..], start, str, size);
    return true;
  }

  /** After i digits: x holds the last one if it is still alone. */
  predicate Parsed(buf: seq<byte>, start: seq<byte>, str: string, i: nat, x: byte) {
    && i <= |str| && (forall k :: 0 <= k < i ==> IsHex(str[k]))
    && x == (if i % 2 == 1 then Digit(str[i - 1]) else 0)
    && Filled(buf, start, str, i / 2)
  }

  lemma ParsedNext(buf: seq<byte>, start: seq<byte>, str: string, i: nat, x: byte)
    requires Parsed(buf, start, str, i, x) && i < |str| && IsHex(str[i]) && i / 2 < |buf|
    ensures var y := x * 16 % 0x100 + Digit(str[i]);
            if i % 2 == 1 then Parsed(buf[i / 2 := y], start, str, i + 1, 0) else Parsed(buf, start, str, i + 1, y)
  {
    if i % 2 == 1 { FilledNext(buf, start, str, i / 2, x * 16 % 0x100 + Digit(str[i])); }
  }

  /** buf is start with its first n bytes replaced by those that str spells. */
  predicate Filled(buf: seq<byte>, start: seq<byte>, str: string, n: nat)
    requires 2 * n <= |str| && forall k :: 0 <= k < 2 * n ==> IsHex(str[k])
  {
    && |buf| == |start| && n <= |buf|
    && (forall k :: 0 <= k < n ==> buf[k] == Pair(str[2 * k], str[2 * k + 1]))
    && (forall k :: n <= k < |buf| ==> buf[k] == start[k])
  }

  lemma FilledNext(buf: seq<byte>, start: seq<byte>, str: string, n: nat, x: byte)
    requires 2 * n + 2 <= |str| && forall k :: 0 <= k < 2 * n + 2 ==> IsHex(str[k])
    requires Filled(buf, start, str, n) && n < |buf| && x == Pair(str[2 * n], str[2 * n + 1])
    ensures Filled(buf[n := x], start, str, n + 1)
  {
  }

  lemma FilledIs(buf: seq<byte>, start: seq<byte>, str: string, n: nat)
    requires 2 * n <= |str| && forall k :: 0 <= k < 2 * n ==> IsHex(str[k])
    requires Filled(buf, start, str, n)
    ensures buf == Bytes(str[..2 * n]) + start[n..]
  {
  }

  lemma {:induction false} DigitsAre(s: string, n: nat, k: nat)
    requires k <= n && k <= |s| && forall i :: 0 <= i < k ==> IsHex(s[i])
    requires k < n ==> k == |s| || !IsHex(s[k])
    ensures Digits(s, n) == k
  {
  }

  lemma BytesSnoc(s: string, n: nat)
    requires 2 * n + 2 <= |s| && forall i :: 0 <= i < 2 * n + 2 ==> IsHex(s[i])
    ensures Bytes(s[..2 * n + 2]) == Bytes(s[..2 * n]) + [Pair(s[2 * n], s[2 * n + 1])]
  {
  }

  /** The option: empty to clear the token, otherwise exactly the token's length in digits. */
  method RelayToken(arg: string, token: array<byte>) returns (ok: bool, given: bool)
    requires token.Length < 0x8000_0000
    modifies token
    ensures ok <==> arg == "" || (|arg| == 2 * token.Length && forall i :: 0 <= i < |arg| ==> IsHex(arg[i]))
    ensures given <==> ok && arg != ""
    ensures given ==> token[..] == Bytes(arg)
  {
    ok, given := false, false;
    if |arg| == 0 {
      ok := true;
    } else if |arg| == token.Length * 2 {
      ok := ParseHex(token, arg, token.Length);
      given := ok;
      assert arg[..|arg|] == arg;
    }
  }

  // ----- The bytes mean the digits -----

  function Base16(s: string): nat
    requires forall i :: 0 <= i < |s| ==> IsHex(s[i])
  {
    if s == "" then 0 else Base16(s[..|s| - 1]) * 16 + Digit(s[|s| - 1])
  }

  function Base256(b: seq<byte>): nat {
    if b == [] then 0 else Base256(b[..|b| - 1]) * 256 + b[|b| - 1]
  }

  /** Read as one number, the bytes are the digits. */
  lemma {:induction false} SameNumber(s: string)
    requires |s| % 2 == 0 && forall i :: 0 <= i < |s| ==> IsHex(s[i])
    ensures Base256(Bytes(s)) == Base16(s)
  {
    if s != "" {
      var n := |s| / 2 - 1;
      SameNumber(s[..2 * n]);
      BytesSnoc(s, n);
      assert s[..2 * n + 2] == s;
      assert Bytes(s)[..n] == Bytes(s[..2 * n]);
      assert s[..2 * n + 1][..2 * n] == s[..2 * n];
      assert Base16(s[..2 * n + 1]) == Base16(s[..2 * n]) * 16 + Digit(s[2 * n]);
    }
  }

  /** The digits are these characters and no others, each with its own value. */
  lemma DigitsExactly(c: char, d: nat)
    ensures IsHex(c) <==> c in "0123456789abcdef" || c in "0123456789ABCDEF"
    ensures d < 16 ==> IsHex("0123456789abcdef"[d]) && Digit("0123456789abcdef"[d]) == d
    ensures d < 16 ==> IsHex("0123456789ABCDEF"[d]) && Digit("0123456789ABCDEF"[d]) == d
  {
    if '0' <= c <= '9' { assert c == "0123456789abcdef"[c as int - '0' as int]; }
    if 'a' <= c <= 'f' { assert c == "0123456789abcdef"[10 + (c as int - 'a' as int)]; }
    if 'A' <= c <= 'F' { assert c == "0123456789ABCDEF"[10 + (c as int - 'A' as int)]; }
  }

  // ----- Printing -----

  function HexChar(d: byte, upper: bool): (c: char)
    requires d < 16
    ensures IsHex(c) && Digit(c) == d
  {
    if d < 10 then ('0' as int + d) as char
    else if upper then ('A' as int + d - 10) as char
    else ('a' as int + d - 10) as char
  }

  function Print(b: seq<byte>, upper: bool): (s: string)
    ensures |s| == 2 * |b| && forall i :: 0 <= i < |s| ==> IsHex(s[i])
  {
    seq(2 * |b|, (i: nat) requires i < 2 * |b| =>
      HexChar(if i % 2 == 0 then b[i / 2] / 16 else b[i / 2] % 16, upper))
  }

  /** Printing in either case and parsing gives the bytes back. */
  lemma PrintParse(b: seq<byte>, upper: bool)
    ensures Bytes(Print(b, upper)) == b
  {
    var s := Print(b, upper);
    forall i | 0 <= i < |b| ensures Bytes(s)[i] == b[i] {
      assert s[2 * i] == HexChar(b[i] / 16, upper) && s[2 * i + 1] == HexChar(b[i] % 16, upper);
    }
  }
}
