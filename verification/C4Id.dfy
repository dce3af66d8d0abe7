/** The C4 identifier of tool/src/ascmhl.rs: a 64-octet digest written in base 58 with exactly
    88 digits behind the prefix `c4` (SMPTE ST 2114), by in-place long division, and read back
    by in-place multiplication. */
module C4Id {
  import opened Prelude
  import opened Positional
  import opened Sha512
  import Utf8

  const CHARSET := "123456789" + "ABCDEFGH" + "JKLMN" + "PQRSTUVWXYZ" + "abcdefghijk" + "mnopqrstuvwxyz"
  const DIGITS: nat := 88

  // ---------------------------------------------------------------------------------------
  // The alphabet
  // ---------------------------------------------------------------------------------------

  function CharOf(d: nat): char
    requires d < 58
  {
    if d < 9 then '1' + d as char
    else if d < 17 then 'A' + (d - 9) as char
    else if d < 22 then 'J' + (d - 17) as char
    else if d < 33 then 'P' + (d - 22) as char
    else if d < 44 then 'a' + (d - 33) as char
    else 'm' + (d - 44) as char
  }

  lemma CharsetAt(d: nat)
    requires d < 58
    ensures |CHARSET| == 58 && CHARSET[d] == CharOf(d)
  {
  }

  lemma CharsetAscends(i: nat, j: nat)
    requires i < j < 58
    ensures CharOf(i) < CharOf(j)
  {
  }

  ghost predicate IsDigit(c: char) {
    exists d: nat :: d < 58 && CharOf(d) == c
  }

  /** The place of a character in the alphabet, searched from `d`; a foreign character counts
      as the zero digit. */
  function PlaceFrom(c: char, d: nat): (place: nat)
    requires d <= 58
    ensures place < 58
    ensures (exists e: nat :: d <= e < 58 && CharOf(e) == c) ==> CharOf(place) == c
    decreases 58 - d
  {
    if d == 58 then 0 else if CharOf(d) == c then d else PlaceFrom(c, d + 1)
  }

  function DigitOf(c: char): (d: nat)
    ensures d < 58
    ensures IsDigit(c) ==> CharOf(d) == c
  {
    PlaceFrom(c, 0)
  }

  lemma DigitOfChar(d: nat)
    requires d < 58
    ensures DigitOf(CharOf(d)) == d
  {
    var e := DigitOf(CharOf(d));
    if e < d {
      CharsetAscends(e, d);
    } else if d < e {
      CharsetAscends(d, e);
    }
  }

  function Chars(digits: seq<nat>): (s: string)
    requires InBase(58, digits)
    ensures |s| == |digits|
  {
    seq(|digits|, i requires 0 <= i < |digits| => CharOf(digits[i]))
  }

  /** The digits of a body, octet by octet. */
  function DigitValues(octets: seq<byte>): (digits: seq<nat>)
    ensures |digits| == |octets| && InBase(58, digits)
  {
    seq(|octets|, i requires 0 <= i < |octets| => DigitOf(octets[i] as char))
  }

  // ---------------------------------------------------------------------------------------
  // What the two conversions mean
  // ---------------------------------------------------------------------------------------

  /** The digest as an 88-digit number in base 58. */
  function Encode(digest: Digest): (id: string)
    ensures |id| == 90
  {
    "c4" + Chars(Digits(58, DIGITS, Value(256, digest)))
  }

  function Body(id: string): string {
    if "c4" <= id then id[2..] else id
  }

  /** The number the UTF-8 octets of an identifier's body denote. */
  function BodyValue(id: string): nat {
    Value(58, DigitValues(Utf8.Octets(Body(id))))
  }

  /** The number an identifier's body denotes, modulo 2^512, as 64 octets. */
  function Decode(id: string): (digest: Digest)
  {
    Digits(256, 64, BodyValue(id))
  }

  /** The shape check of the read side: `c4` and exactly 88 characters of the alphabet. */
  ghost predicate WellFormed(id: string) {
    "c4" <= id && |id| == 90 && forall i :: 2 <= i < 90 ==> IsDigit(id[i])
  }

  /** 88 base-58 digits hold every 512-bit number, and 87 do not. */
  lemma DigitsSuffice()
    ensures Pow(58, 87) < Pow(256, 64) <= Pow(58, 88)
  {
    hide Pow;
    SmallPowers();
    PowAdd(58, 11, 11);
    PowAdd(58, 22, 22);
    PowAdd(58, 44, 44);
    PowAdd(58, 1, 87);
    PowAdd(256, 8, 8);
    PowAdd(256, 16, 16);
    PowAdd(256, 32, 32);
  }

  lemma SmallPowers()
    ensures Pow(256, 8) == 0x1_0000_0000_0000_0000
    ensures Pow(58, 11) == 24986644000165537792
    ensures Pow(58, 1) == 58
  {
    PowAdd(256, 4, 4);
    PowAdd(58, 5, 6);
    PowAdd(58, 5, 1);
    assert Pow(58, 5) == 656356768;
    assert Pow(256, 4) == 0x1_0000_0000;
  }

  // ---------------------------------------------------------------------------------------
  // The conversions, in place on 64 octets
  // ---------------------------------------------------------------------------------------

  /** One step of the long division: the number in `buf` is replaced by its quotient by 58. */
  method DivMod58(buf: array<byte>) returns (rem: nat)
    requires buf.Length == 64
    modifies buf
    ensures rem < 58
    ensures Value(256, buf[..]) * 58 + rem == Value(256, old(buf[..]))
  {
    rem := 0;
    assert buf[..0] == old(buf[..])[..0];
    for i := 0 to 64
      invariant rem < 58
      invariant buf[i..] == old(buf[..])[i..]
      invariant Value(256, buf[..i]) * 58 + rem == Value(256, old(buf[..])[..i])
    {
      ghost var was, done := old(buf[..]), buf[..i];
      var cur := rem * 256 + buf[i];
      assert cur / 58 < 256;
      buf[i] := cur / 58;
      rem := cur % 58;
      assert buf[..i + 1] == done + [cur / 58] && was[..i + 1] == was[..i] + [was[i]];
      ValueAppend(256, done, [cur / 58]);
      ValueAppend(256, was[..i], [was[i]]);
      ValueOne(256, cur / 58);
      ValueOne(256, was[i]);
      assert Pow(256, 1) == 256;
    }
    assert buf[..64] == buf[..] && old(buf[..])[..64] == old(buf[..]);
  }

  ghost predicate NumberSplit(n: nat, high: nat, num: seq<nat>) {
    n == high * Pow(58, |num|) + Value(58, num)
  }

  lemma PushDigit(n: nat, high: nat, rem: nat, num: seq<nat>)
    requires NumberSplit(n, high * 58 + rem, num)
    ensures NumberSplit(n, high, [rem] + num)
  {
    ValueAppend(58, [rem], num);
    ValueOne(58, rem);
    var p := Pow(58, |num|);
    assert (high * 58 + rem) * p == high * (58 * p) + rem * p;
  }

  /** A number without a leading zero digit has no more digits than its size calls for. */
  lemma NumberLength(num: seq<nat>)
    requires InBase(58, num) && num != [] && num[0] > 0
    requires Value(58, num) < Pow(58, DIGITS)
    ensures |num| <= DIGITS
  {
    hide Pow, Value;
    ValueHead(58, num);
    MulGap(Pow(58, |num| - 1), 0, num[0]);
    PowMonotone(58, DIGITS, |num| - 1);
  }

  lemma {:induction false} PowMonotone(b: nat, m: nat, n: nat)
    requires b > 0
    ensures m <= n ==> Pow(b, m) <= Pow(b, n)
    decreases n
  {
    if m < n {
      PowMonotone(b, m, n - 1);
      MulGap(Pow(b, n - 1), 0, b);
    }
  }

  lemma LeadingZeros(k: nat, num: seq<nat>)
    requires InBase(58, num) && |num| <= DIGITS && k == DIGITS - |num|
    ensures Digits(58, DIGITS, Value(58, num)) == seq(k, _ => 0) + num
  {
    hide Digits, Value;
    var zeros := seq(k, _ => 0);
    ValueZeros(58, zeros);
    ValueAppend(58, zeros, num);
    DigitsOfValue(58, zeros + num);
  }

  lemma ZeroChars(pad: nat, num: seq<nat>)
    requires InBase(58, num)
    ensures Chars(seq(pad, _ => 0) + num) == Repeat('1', pad) + Chars(num)
  {
  }

  function Repeat(c: char, k: nat): (s: string)
    ensures |s| == k && forall i :: 0 <= i < k ==> s[i] == c
  {
    seq(k, _ => c)
  }

  function Reverse(s: string): (r: string)
    ensures |r| == |s| && forall i :: 0 <= i < |s| ==> r[i] == s[|s| - 1 - i]
  {
    seq(|s|, i requires 0 <= i < |s| => s[|s| - 1 - i])
  }

  lemma AnyNonZero(buf: array<byte>)
    requires buf.Length == 64
    ensures (exists i :: 0 <= i < 64 && buf[i] != 0) <==> Value(256, buf[..]) != 0
  {
    ValueZeros(256, buf[..]);
    assert forall i :: 0 <= i < 64 ==> buf[..][i] == buf[i];
  }

  lemma PushChar(digits: string, num: seq<nat>, rem: nat)
    requires InBase(58, num) && rem < 58 && digits == Reverse(Chars(num))
    ensures digits + [CharOf(rem)] == Reverse(Chars([rem] + num))
  {
  }

  method C4OfDigest(digest: Digest) returns (id: string)
    ensures id == Encode(digest)
  {
    hide Value, Pow, Digits, CHARSET;
    ValueNone(58);
    var buf := new byte[64](i requires 0 <= i < 64 => digest[i]);
    assert buf[..] == digest;
    var digits: string := [];
    ghost var num: seq<nat> := [];
    ghost var n := Value(256, digest);
    AnyNonZero(buf);
    while exists i :: 0 <= i < 64 && buf[i] != 0
      invariant (exists i :: 0 <= i < 64 && buf[i] != 0) <==> Value(256, buf[..]) != 0
      invariant InBase(58, num) && digits == Reverse(Chars(num))
      invariant NumberSplit(n, Value(256, buf[..]), num)
      invariant num != [] && Value(256, buf[..]) == 0 ==> num[0] > 0
      decreases Value(256, buf[..])
    {
      var rem := DivMod58(buf);
      AnyNonZero(buf);
      PushDigit(n, Value(256, buf[..]), rem, num);
      CharsetAt(rem);
      PushChar(digits, num, rem);
      digits := digits + [CHARSET[rem]];
      num := [rem] + num;
    }
    digits := Reverse(digits);
    assert digits == Chars(num);
    id := PadBody(digits, num, digest);
  }

  /** Fill up with zero digits to 88 and prefix. */
  method PadBody(digits: string, ghost num: seq<nat>, ghost digest: Digest) returns (id: string)
    requires InBase(58, num) && digits == Chars(num)
    requires Value(58, num) == Value(256, digest)
    requires num != [] ==> num[0] > 0
    ensures id == Encode(digest)
  {
    hide Value, Pow, Digits;
    DigitsSuffice();
    ValueBound(256, digest);
    if num != [] {
      NumberLength(num);
    }
    var pad := if |digits| < DIGITS then DIGITS - |digits| else 0;
    LeadingZeros(pad, num);
    ZeroChars(pad, num);
    id := "c4" + Repeat('1', pad) + digits;
    assert id == "c4" + (Repeat('1', pad) + digits);
  }

  /** One step of the multiplication: `acc` becomes `acc * 58 + digit`, and what does not fit
      in 64 octets is returned. The carry stays below 58 throughout. */
  method MulAdd58(acc: array<byte>, digit: nat) returns (carry: nat)
    requires acc.Length == 64 && digit < 58
    modifies acc
    ensures carry < 58
    ensures Value(256, acc[..]) + carry * Pow(256, 64) == Value(256, old(acc[..])) * 58 + digit
  {
    hide Pow, Value;
    ValueNone(256);
    carry := digit;
    var j := 64;
    ghost var was := old(acc[..]);
    assert acc[64..] == [] && was[64..] == [];
    while j > 0
      invariant 0 <= j <= 64 && carry < 58
      invariant acc[..j] == was[..j]
      invariant Value(256, acc[j..]) + carry * Pow(256, 64 - j) == Value(256, was[j..]) * 58 + digit
    {
      j := j - 1;
      ghost var low := acc[j + 1..];
      var cur := acc[j] * 58 + carry;
      var octet, over := cur % 256, cur / 256;
      QuotientRemainder(cur);
      MulAddOctet(low, was[j + 1..], was[j], carry, digit, over, octet);
      acc[j] := octet;
      carry := over;
      assert acc[j..] == [octet] + low && was[j..] == [was[j]] + was[j + 1..];
    }
    assert acc[0..] == acc[..] && was[0..] == was;
  }

  lemma MulAddOctet(low: seq<nat>, was: seq<nat>, octet: nat, carry: nat, digit: nat, q: nat, r: nat)
    requires |low| == |was| && octet * 58 + carry == 256 * q + r
    requires Value(256, low) + carry * Pow(256, |low|) == Value(256, was) * 58 + digit
    ensures Value(256, [r] + low) + q * Pow(256, |low| + 1) == Value(256, [octet] + was) * 58 + digit
  {
    hide Pow, Value;
    ValueCons(256, r, low);
    ValueCons(256, octet, was);
    PowSucc(256, |low|);
    CarryStep(Pow(256, |low|), Pow(256, |low| + 1), octet, carry, digit, q, r, Value(256, low), Value(256, was),
              Value(256, [r] + low), Value(256, [octet] + was));
  }

  lemma CarryStep(p: nat, next: nat, octet: nat, carry: nat, digit: nat, q: nat, r: nat, low: nat, was: nat, after: nat, before: nat)
    requires octet * 58 + carry == 256 * q + r && next == 256 * p && low + carry * p == was * 58 + digit
    requires after == p * r + low && before == p * octet + was
    ensures after + q * next == before * 58 + digit
  {
    CarryAlgebra(p, q, r, octet, carry, low, was, digit);
    CarryPlaces(p, next, q, after, before, r, octet, low, was, digit);
  }

  lemma QuotientRemainder(n: nat)
    ensures n == 256 * (n / 256) + n % 256
  {
  }

  lemma CarryPlaces(p: nat, next: nat, q: nat, after: nat, before: nat, r: nat, octet: nat, low: nat, was: nat, digit: nat)
    requires next == 256 * p && after == p * r + low && before == p * octet + was
    requires p * r + low + q * (256 * p) == (p * octet + was) * 58 + digit
    ensures after + q * next == before * 58 + digit
  {
  }

  lemma ValueCons(base: nat, d: nat, low: seq<nat>)
    ensures Value(base, [d] + low) == Pow(base, |low|) * d + Value(base, low)
  {
    hide Pow, Value;
    ValueHead(base, [d] + low);
    assert ([d] + low)[1..] == low;
  }

  lemma CarryAlgebra(p: nat, q: nat, r: nat, octet: nat, carry: nat, low: nat, was: nat, digit: nat)
    requires octet * 58 + carry == 256 * q + r
    requires low + carry * p == was * 58 + digit
    ensures p * r + low + q * (256 * p) == (p * octet + was) * 58 + digit
  {
    var qp, rp, op, cp := q * p, r * p, octet * p, carry * p;
    assert (256 * q + r) * p == 256 * qp + rp;
    assert (octet * 58 + carry) * p == 58 * op + cp;
    assert q * (256 * p) == 256 * qp && p * r == rp && p * octet == op;
  }

  lemma AppendDigit(body: seq<byte>, i: nat)
    requires i < |body|
    ensures Value(58, DigitValues(body[..i + 1])) == Value(58, DigitValues(body[..i])) * 58 + DigitOf(body[i] as char)
  {
    assert DigitValues(body[..i + 1])[..i] == DigitValues(body[..i]);
  }

  method C4Bytes(id: string) returns (digest: seq<byte>)
    ensures digest == Decode(id)
  {
    hide Pow, Value, Digits, Utf8.Octets;
    ValueNone(58);
    ValueNone(256);
    var body := Utf8.Octets(Body(id));
    var acc := new byte[64](_ => 0);
    ValueZeros(256, acc[..]);
    ghost var m := Pow(256, 64);
    for i := 0 to |body|
      invariant Value(256, acc[..]) == Value(58, DigitValues(body[..i])) % m
    {
      var digit := DigitOf(body[i] as char);
      var carry := MulAdd58(acc, digit);
      AppendDigit(body, i);
      ValueBound(256, acc[..]);
      ModStep(58, Value(58, DigitValues(body[..i])), digit, m, carry, Value(256, acc[..]));
    }
    assert body[..|body|] == body;
    digest := acc[..];
    ValueBound(256, digest);
    DigitsOfValue(256, digest);
    DigitsModulo(256, 64, BodyValue(id));
  }

  // ---------------------------------------------------------------------------------------
  // Round trips and order
  // ---------------------------------------------------------------------------------------

  lemma EncodedDigits(digest: Digest)
    ensures Body(Encode(digest)) == Chars(Digits(58, DIGITS, Value(256, digest)))
    ensures DigitValues(Utf8.Octets(Body(Encode(digest)))) == Digits(58, DIGITS, Value(256, digest))
    ensures BodyValue(Encode(digest)) == Value(256, digest)
  {
    hide Digits, Value, Pow, DigitOf, Utf8.Octets;
    var digits := Digits(58, DIGITS, Value(256, digest));
    assert Encode(digest)[2..] == Chars(digits);
    ValuesOfChars(digits);
    DigitsSuffice();
    ValueBound(256, digest);
    ValueOfDigits(58, DIGITS, Value(256, digest));
    DivUnique(Value(256, digest), Pow(58, DIGITS), 0, Value(256, digest));
  }

  lemma ValuesOfChars(digits: seq<nat>)
    requires InBase(58, digits)
    ensures DigitValues(Utf8.Octets(Chars(digits))) == digits
  {
    hide Utf8.Octets, DigitOf;
    Utf8.AsciiOctets(Chars(digits));
    forall i | 0 <= i < |digits|
      ensures DigitValues(Utf8.Octets(Chars(digits)))[i] == digits[i]
    {
      DigitOfChar(digits[i]);
    }
  }

  lemma CharsOfValues(s: string)
    requires forall i :: 0 <= i < |s| ==> IsDigit(s[i])
    ensures Chars(DigitValues(Utf8.Octets(s))) == s
  {
    hide Utf8.Octets, DigitOf;
    forall i | 0 <= i < |s|
      ensures s[i] as int < 0x80
    {
      DigitIsAscii(s[i]);
    }
    Utf8.AsciiOctets(s);
    forall i | 0 <= i < |s|
      ensures CharOf(DigitOf(s[i])) == s[i]
    {
    }
  }

  lemma DigitIsAscii(c: char)
    requires IsDigit(c)
    ensures c as int < 0x80
  {
  }

  /** Every digest is written with the prefix and exactly 88 characters of the alphabet. */
  lemma EncodeWellFormed(digest: Digest)
    ensures WellFormed(Encode(digest))
  {
    hide Digits, Value;
    var digits := Digits(58, DIGITS, Value(256, digest));
    forall i | 2 <= i < 90
      ensures IsDigit(Encode(digest)[i])
    {
      assert Encode(digest)[i] == CharOf(digits[i - 2]);
    }
  }

  lemma DecodeEncode(digest: Digest)
    ensures Decode(Encode(digest)) == digest
  {
    hide Digits, Value;
    EncodedDigits(digest);
    DigitsOfValue(256, digest);
  }

  lemma EncodeInjective(a: Digest, b: Digest)
    requires Encode(a) == Encode(b)
    ensures a == b
  {
    DecodeEncode(a);
    DecodeEncode(b);
  }

  /** A well-formed identifier is the encoding of what it decodes to exactly when the number
      it denotes fits in 512 bits. */
  lemma EncodeDecode(id: string)
    requires WellFormed(id)
    ensures Encode(Decode(id)) == id <==> BodyValue(id) < Pow(256, 64)
  {
    hide Digits, Value, Pow, DigitOf, Utf8.Octets;
    var body := Body(id);
    var digits := DigitValues(Utf8.Octets(body));
    var v, m := BodyValue(id), Pow(256, 64);
    assert body == id[2..] && id == "c4" + body;
    CharsOfValues(body);
    ValueOfDigits(256, 64, v);
    EncodedDigits(Decode(id));
    ValueBound(256, Decode(id));
    if v < m {
      DivUnique(v, m, 0, v);
      DigitsOfValue(58, digits);
    }
  }

  /** Rust's order on strings: characters by code point, a proper prefix first. */
  predicate StringLess(a: string, b: string) {
    b != [] && (a == [] || a[0] < b[0] || (a[0] == b[0] && StringLess(a[1..], b[1..])))
  }

  lemma {:induction false} StringLessOfChars(a: seq<nat>, b: seq<nat>)
    requires InBase(58, a) && InBase(58, b)
    ensures StringLess(Chars(a), Chars(b)) <==> LexLess(a, b)
  {
    if a != [] && b != [] {
      assert Chars(a)[1..] == Chars(a[1..]) && Chars(b)[1..] == Chars(b[1..]);
      StringLessOfChars(a[1..], b[1..]);
      if a[0] < b[0] {
        CharsetAscends(a[0], b[0]);
      } else if b[0] < a[0] {
        CharsetAscends(b[0], a[0]);
      }
    }
  }

  lemma {:induction false} StringLessPrefix(p: string, a: string, b: string)
    ensures StringLess(p + a, p + b) <==> StringLess(a, b)
  {
    if p == [] {
      assert p + a == a && p + b == b;
    } else {
      assert (p + a)[1..] == p[1..] + a && (p + b)[1..] == p[1..] + b;
      StringLessPrefix(p[1..], a, b);
    }
  }

  /** Identifiers sort as strings the way their digests sort as octets and as integers. */
  lemma OrderIsomorphism(a: Digest, b: Digest)
    ensures StringLess(Encode(a), Encode(b)) <==> LexLess(a, b)
    ensures LexLess(a, b) <==> Value(256, a) < Value(256, b)
  {
    hide Digits, Value, LexLess, StringLess;
    var x, y := Digits(58, DIGITS, Value(256, a)), Digits(58, DIGITS, Value(256, b));
    EncodedDigits(a);
    EncodedDigits(b);
    StringLessPrefix("c4", Chars(x), Chars(y));
    StringLessOfChars(x, y);
    LexIsNumeric(58, x, y);
    LexIsNumeric(256, a, b);
  }

  // ---------------------------------------------------------------------------------------
  // What is not an identifier
  // ---------------------------------------------------------------------------------------

  lemma {:induction false} ForeignFrom(c: char, d: nat)
    requires d <= 58 && !IsDigit(c)
    ensures PlaceFrom(c, d) == 0
    decreases 58 - d
  {
    if d < 58 {
      ForeignFrom(c, d + 1);
    }
  }

  /** Reading never fails: the prefix may be missing, and a character outside the alphabet counts
      as the alphabet's first. */
  lemma ReadsAnything(body: string, c: char, rest: string)
    ensures !("c4" <= body) ==> Decode(body) == Decode("c4" + body)
    ensures !IsDigit(c) && c < 128 as char ==> Decode("c4" + body + [c] + rest) == Decode("c4" + body + "1" + rest)
  {
    hide Digits, Value, Utf8.Octets;
    assert ("c4" + body)[2..] == body;
    if !IsDigit(c) && c < 128 as char {
      ForeignFrom(c, 0);
      DigitOfChar(0);
      var a, b := body + [c] + rest, body + "1" + rest;
      assert ("c4" + body + [c] + rest)[2..] == a && ("c4" + body + "1" + rest)[2..] == b;
      AsciiOctets(body, c, rest);
      AsciiOctets(body, '1', rest);
      var x, y := Utf8.Octets(body), Utf8.Octets(rest);
      var p, q := DigitValues(x + [c as byte] + y), DigitValues(x + ['1' as byte] + y);
      assert p == q;
    }
  }

  lemma {:induction false} AsciiOctets(body: string, c: char, rest: string)
    requires c < 128 as char
    ensures Utf8.Octets(body + [c] + rest) == Utf8.Octets(body) + [c as byte] + Utf8.Octets(rest)
  {
    var t := body + [c] + rest;
    if body == "" {
      assert t[0] == c && t[1..] == rest;
    } else {
      assert t[0] == body[0] && t[1..] == body[1..] + [c] + rest;
      AsciiOctets(body[1..], c, rest);
      var first, more := Utf8.EncodeChar(body[0]), Utf8.Octets(body[1..]);
      assert first + (more + [c as byte] + Utf8.Octets(rest)) == (first + more) + [c as byte] + Utf8.Octets(rest);
    }
  }
}
