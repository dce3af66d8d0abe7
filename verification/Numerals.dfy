/** Decimal and hexadecimal numerals as Rust formats and parses them, and UTC time stamps. */
module Numerals {
  import opened Prelude
  import opened Positional

  function DigitChar(d: nat): char
    requires d < 16
  {
    if d < 10 then '0' + d as char else 'a' + (d - 10) as char
  }

  function CharDigit(c: char): (d: nat) {
    if '0' <= c <= '9' then (c - '0') as nat
    else if 'a' <= c <= 'f' then (c - 'a') as nat + 10
    else if 'A' <= c <= 'F' then (c - 'A') as nat + 10
    else 16
  }

  lemma CharDigitOf(d: nat)
    requires d < 16
    ensures CharDigit(DigitChar(d)) == d && DigitChar(d) != '+'
  {
  }

  function DigitChars(digits: seq<nat>): (s: string)
    requires InBase(16, digits)
    ensures |s| == |digits| && forall i :: 0 <= i < |s| ==> s[i] == DigitChar(digits[i])
  {
    seq(|digits|, i requires 0 <= i < |digits| => DigitChar(digits[i]))
  }

  function CharDigits(s: string): (digits: seq<nat>)
    ensures |digits| == |s| && forall i :: 0 <= i < |s| ==> digits[i] == CharDigit(s[i])
  {
    seq(|s|, i requires 0 <= i < |s| => CharDigit(s[i]))
  }

  /** The digits of `n` without leading zeros; zero is one digit. */
  function Minimal(base: nat, n: nat): (digits: seq<nat>)
    requires 1 < base <= 16
    ensures digits != [] && InBase(base, digits) && InBase(16, digits)
    ensures Value(base, digits) == n
  {
    if n < base then
      ValueOne(base, n);
      [n]
    else
      var front := Minimal(base, n / base);
      assert (front + [n % base])[..|front|] == front;
      front + [n % base]
  }

  function Numeral(base: nat, n: nat): (s: string)
    requires 1 < base <= 16
    ensures s != []
  {
    DigitChars(Minimal(base, n))
  }

  function Dec(n: nat): (s: string)
    ensures s != []
  {
    Numeral(10, n)
  }

  /** At least `width` characters, filled up with zeros on the left. */
  function Padded(base: nat, width: nat, n: nat): (s: string)
    requires 1 < base <= 16
    ensures s != [] && |s| >= width
  {
    var s := Numeral(base, n);
    if |s| < width then seq(width - |s|, _ => '0') + s else s
  }

  /** Rust's unsigned parse: an optional plus sign, then one or more digits of the base, within
      the type's range. */
  function ParseUnsigned(base: nat, limit: nat, s: string): Option<nat>
    requires 1 < base <= 16
  {
    if s == "" || s == "+" then None
    else
      var body := if s[0] == '+' then s[1..] else s;
      var digits := CharDigits(body);
      if InBase(base, digits) then
        if Value(base, digits) < limit then Some(Value(base, digits)) else None
      else None
  }

  lemma CharDigitsOf(digits: seq<nat>)
    requires InBase(16, digits)
    ensures CharDigits(DigitChars(digits)) == digits
  {
    forall i | 0 <= i < |digits|
      ensures CharDigits(DigitChars(digits))[i] == digits[i]
    {
      CharDigitOf(digits[i]);
    }
  }

  lemma ParseDigits(base: nat, limit: nat, digits: seq<nat>)
    requires 1 < base <= 16 && InBase(base, digits) && digits != []
    ensures InBase(16, digits)
    ensures ParseUnsigned(base, limit, DigitChars(digits))
            == if Value(base, digits) < limit then Some(Value(base, digits)) else None
  {
    hide Value;
    CharDigitOf(digits[0]);
    CharDigitsOf(digits);
  }

  /** The digits of a padded numeral. */
  function PaddedWith(base: nat, width: nat, n: nat): (digits: seq<nat>)
    requires 1 < base <= 16
    ensures digits != [] && InBase(base, digits) && InBase(16, digits)
  {
    var digits := Minimal(base, n);
    if |digits| < width then seq(width - |digits|, _ => 0) + digits else digits
  }

  lemma PaddedIs(base: nat, width: nat, n: nat)
    requires 1 < base <= 16
    ensures Padded(base, width, n) == DigitChars(PaddedWith(base, width, n))
    ensures Value(base, PaddedWith(base, width, n)) == n
  {
    hide Value;
    var digits := Minimal(base, n);
    if |digits| < width {
      var zeros := seq(width - |digits|, _ => 0);
      ValueZeros(base, zeros);
      ValueAppend(base, zeros, digits);
    }
  }

  /** A formatted number reads as itself, digit by digit. */
  lemma PaddedValue(base: nat, width: nat, n: nat)
    requires 1 < base <= 16
    ensures InBase(base, CharDigits(Padded(base, width, n)))
    ensures Value(base, CharDigits(Padded(base, width, n))) == n
  {
    hide Value;
    PaddedIs(base, width, n);
    CharDigitsOf(PaddedWith(base, width, n));
  }

  /** A formatted number parses back, whatever it was padded to. */
  lemma ParsePadded(base: nat, width: nat, n: nat, limit: nat)
    requires 1 < base <= 16 && n < limit
    ensures ParseUnsigned(base, limit, Padded(base, width, n)) == Some(n)
  {
    hide Value, ParseUnsigned, Padded;
    PaddedIs(base, width, n);
    ParseDigits(base, limit, PaddedWith(base, width, n));
  }

  lemma ParseDec(n: nat, limit: nat)
    requires n < limit
    ensures ParseUnsigned(10, limit, Dec(n)) == Some(n)
  {
    ParsePadded(10, 0, n, limit);
  }

  predicate IsDecDigit(c: char) {
    '0' <= c <= '9'
  }

  lemma PaddedDigits(width: nat, n: nat)
    ensures forall c :: c in Padded(10, width, n) ==> IsDecDigit(c)
  {
    var digits := Minimal(10, n);
    forall c | c in DigitChars(digits)
      ensures IsDecDigit(c)
    {
      var i :| 0 <= i < |digits| && DigitChars(digits)[i] == c;
    }
  }

  /** A number below a power of ten is padded to exactly that many digits. */
  lemma PaddedWidth(width: nat, n: nat)
    requires n < Pow(10, width) && width > 0
    ensures |Padded(10, width, n)| == width
  {
    MinimalWidth(width, n);
  }

  lemma {:induction false} MinimalWidth(width: nat, n: nat)
    requires n < Pow(10, width) && width > 0
    ensures |Minimal(10, n)| <= width
    decreases width
  {
    if n >= 10 {
      assert width > 1;
      MinimalWidth(width - 1, n / 10);
    }
  }

  // ---------------------------------------------------------------------------------------
  // Time stamps
  // ---------------------------------------------------------------------------------------

  /** The civil date of a day counted from 1970-01-01, by 400-year eras starting in March. */
  function CivilFromDays(days: nat): (nat, nat, nat) {
    var z := days + 719_468;
    var era := z / 146_097;
    var doe := z - era * 146_097;
    var yoe := (doe - doe / 1460 + doe / 36_524 - doe / 146_096) / 365;
    var doy := doe - (365 * yoe + yoe / 4 - yoe / 100);
    var mp := (5 * doy + 2) / 153;
    var d := doy - (153 * mp + 2) / 5 + 1;
    var m := if mp < 10 then mp + 3 else mp - 9;
    var y := yoe + era * 400;
    (if m <= 2 then y + 1 else y, m, d)
  }

  function UtcTimestamp(unix: nat): (s: string)
    ensures |s| > 11
  {
    var (y, m, d) := CivilFromDays(unix / 86_400);
    var secs := unix % 86_400;
    Padded(10, 4, y) + "-" + Padded(10, 2, m) + "-" + Padded(10, 2, d) + "T"
    + Padded(10, 2, secs / 3600) + ":" + Padded(10, 2, secs % 3600 / 60) + ":" + Padded(10, 2, secs % 60) + "Z"
  }

  /** The XSD dateTime form. */
  function UtcIso(unix: nat): string {
    var z := UtcTimestamp(unix);
    z[..|z| - 1] + "+00:00"
  }

  function RemoveColons(s: string): string {
    if s == [] then [] else (if s[0] == ':' then [] else [s[0]]) + RemoveColons(s[1..])
  }

  /** The stamp in a manifest's file name. */
  function UtcFilenameStamp(unix: nat): string {
    var ts := UtcTimestamp(unix);
    ts[..10] + "_" + RemoveColons(ts[11..|ts| - 1]) + "Z"
  }

  predicate IsStampChar(c: char) {
    IsDecDigit(c) || c == '-' || c == ':' || c == 'T' || c == 'Z' || c == '+'
  }

  ghost predicate IsStamp(s: string) {
    forall c :: c in s ==> IsStampChar(c)
  }

  lemma PaddedStamp(width: nat, n: nat)
    ensures IsStamp(Padded(10, width, n))
  {
    PaddedDigits(width, n);
  }

  lemma TimestampStamp(unix: nat)
    ensures IsStamp(UtcTimestamp(unix))
  {
    var (y, m, d) := CivilFromDays(unix / 86_400);
    var secs := unix % 86_400;
    hide Padded, CivilFromDays, IsStamp;
    PaddedStamp(4, y);
    PaddedStamp(2, m);
    PaddedStamp(2, d);
    PaddedStamp(2, secs / 3600);
    PaddedStamp(2, secs % 3600 / 60);
    PaddedStamp(2, secs % 60);
    StampMarks();
    StampJoin(Padded(10, 4, y), "-", Padded(10, 2, m));
    StampJoin(Padded(10, 4, y) + "-" + Padded(10, 2, m), "-", Padded(10, 2, d));
    var date := Padded(10, 4, y) + "-" + Padded(10, 2, m) + "-" + Padded(10, 2, d);
    StampJoin(date, "T", Padded(10, 2, secs / 3600));
    StampJoin(date + "T" + Padded(10, 2, secs / 3600), ":", Padded(10, 2, secs % 3600 / 60));
    StampJoin(date + "T" + Padded(10, 2, secs / 3600) + ":" + Padded(10, 2, secs % 3600 / 60), ":", Padded(10, 2, secs % 60));
    var all := date + "T" + Padded(10, 2, secs / 3600) + ":" + Padded(10, 2, secs % 3600 / 60) + ":" + Padded(10, 2, secs % 60);
    StampJoin(all, "Z", "");
    assert all + "Z" + "" == all + "Z";
  }

  lemma StampMarks()
    ensures IsStamp("-") && IsStamp(":") && IsStamp("T") && IsStamp("Z") && IsStamp("")
  {
  }

  lemma StampJoin(a: string, mark: string, b: string)
    requires IsStamp(a) && IsStamp(mark) && IsStamp(b)
    ensures IsStamp(a + mark + b)
  {
  }

  /** A time stamp is never empty and needs no escaping and no trimming. */
  lemma IsoStamp(unix: nat)
    ensures IsStamp(UtcIso(unix)) && UtcIso(unix) != ""
  {
    TimestampStamp(unix);
    hide UtcTimestamp;
    var z := UtcTimestamp(unix);
    assert forall c :: c in z[..|z| - 1] ==> c in z;
  }
}
