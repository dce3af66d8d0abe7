/** The octets of a string in UTF-8. */
module Utf8 {
  import opened Prelude

  function EncodeChar(c: char): (s: seq<byte>)
    ensures 1 <= |s| <= 4
  {
    var n := c as int;
    if n < 0x80 then [n]
    else if n < 0x800 then [0xC0 + n / 64, 0x80 + n % 64]
    else if n < 0x1_0000 then [0xE0 + n / 4096, 0x80 + n / 64 % 64, 0x80 + n % 64]
    else [0xF0 + n / 262144, 0x80 + n / 4096 % 64, 0x80 + n / 64 % 64, 0x80 + n % 64]
  }

  function Octets(s: string): seq<byte> {
    if s == [] then [] else EncodeChar(s[0]) + Octets(s[1..])
  }

  /** A character's octets tell where they end and which character they are. */
  lemma PrefixFree(c: char, d: char, s: seq<byte>, t: seq<byte>)
    requires EncodeChar(c) + s == EncodeChar(d) + t
    ensures c == d && s == t
  {
    var x, y := EncodeChar(c), EncodeChar(d);
    assert x[0] == (x + s)[0] == (y + t)[0] == y[0];
    LeadOctet(c);
    LeadOctet(d);
    assert |x| == |y|;
    assert x == (x + s)[..|x|] && y == (y + t)[..|y|];
    assert s == (x + s)[|x|..] && t == (y + t)[|y|..];
    SameOctets(c, d);
  }

  lemma LeadOctet(c: char)
    ensures var x := EncodeChar(c);
            |x| == if x[0] < 0xC0 then 1 else if x[0] < 0xE0 then 2 else if x[0] < 0xF0 then 3 else 4
  {
  }

  lemma SameOctets(c: char, d: char)
    requires EncodeChar(c) == EncodeChar(d)
    ensures c == d
  {
    var x, y := EncodeChar(c), EncodeChar(d);
    Rebuild(c as int);
    Rebuild(d as int);
    assert x[0] == y[0];
    if |x| >= 2 {
      assert x[1] == y[1];
    }
    if |x| >= 3 {
      assert x[2] == y[2];
    }
    if |x| >= 4 {
      assert x[3] == y[3];
    }
    assert c as int == d as int;
  }

  lemma Rebuild(n: nat)
    ensures n == 64 * (n / 64) + n % 64
    ensures n / 64 == 64 * (n / 4096) + n / 64 % 64
    ensures n / 4096 == 64 * (n / 262144) + n / 4096 % 64
  {
  }

  lemma {:induction false} Injective(s: string, t: string)
    requires Octets(s) == Octets(t)
    ensures s == t
  {
    if s != [] && t != [] {
      PrefixFree(s[0], t[0], Octets(s[1..]), Octets(t[1..]));
      Injective(s[1..], t[1..]);
    }
  }

  /** ASCII text has one octet a character, its code. */
  lemma {:induction false} AsciiOctets(s: string)
    requires forall i :: 0 <= i < |s| ==> s[i] as int < 0x80
    ensures |Octets(s)| == |s| && forall i :: 0 <= i < |s| ==> Octets(s)[i] == s[i] as int
  {
    if s != [] {
      AsciiOctets(s[1..]);
    }
  }

  // ---------------------------------------------------------------------------------------
  // Reading text back
  // ---------------------------------------------------------------------------------------

  predicate IsContinuation(b: byte) {
    0x80 <= b < 0xC0
  }

  /** The character that well-formed octets begin with, and how many octets it takes: shortest
      form only, no surrogates, nothing above U+10FFFF. */
  function DecodeOne(b: seq<byte>): (r: Option<(char, nat)>)
    requires b != []
    ensures r.Some? ==> 1 <= r.value.1 <= |b|
  {
    if b[0] < 0x80 then Some((b[0] as char, 1))
    else if b[0] < 0xC0 || |b| < 2 || !IsContinuation(b[1]) then None
    else if b[0] < 0xE0 then
      var n := (b[0] - 0xC0) as int * 64 + (b[1] - 0x80);
      if n >= 0x80 then Some((n as char, 2)) else None
    else if |b| < 3 || !IsContinuation(b[2]) then None
    else if b[0] < 0xF0 then
      var n := (b[0] - 0xE0) as int * 4096 + (b[1] - 0x80) as int * 64 + (b[2] - 0x80);
      if 0x800 <= n < 0xD800 || 0xE000 <= n then Some((n as char, 3)) else None
    else if |b| < 4 || !IsContinuation(b[3]) then None
    else
      var n := (b[0] - 0xF0) as int * 262144 + (b[1] - 0x80) as int * 4096 + (b[2] - 0x80) as int * 64 + (b[3] - 0x80);
      if 0x1_0000 <= n < 0x11_0000 then Some((n as char, 4)) else None
  }

  /** The text that octets spell, if they are well-formed UTF-8. */
  function Text(b: seq<byte>): Option<string>
    decreases |b|
  {
    if b == [] then Some("")
    else
      match DecodeOne(b)
      case None => None
      case Some(c) =>
        match Text(b[c.1..])
        case None => None
        case Some(rest) => Some([c.0] + rest)
  }

  lemma DecodeEncoded(c: char, rest: seq<byte>)
    ensures DecodeOne(EncodeChar(c) + rest) == Some((c, |EncodeChar(c)|))
  {
    Rebuild(c as int);
    var x := EncodeChar(c);
    var b := x + rest;
    assert b[0] == x[0];
    if |x| >= 2 {
      assert b[1] == x[1];
    }
    if |x| >= 3 {
      assert b[2] == x[2];
    }
    if |x| >= 4 {
      assert b[3] == x[3];
    }
  }

  lemma {:induction false} TextOfOctets(s: string)
    ensures Text(Octets(s)) == Some(s)
  {
    if s != [] {
      var x, rest := EncodeChar(s[0]), Octets(s[1..]);
      DecodeEncoded(s[0], rest);
      assert (x + rest)[|x|..] == rest;
      TextOfOctets(s[1..]);
      assert s == [s[0]] + s[1..];
    }
  }
}
