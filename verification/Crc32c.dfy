/** CRC-32C (tool/src/checksums.rs): the compile-time table, the table-driven digest over a
    whole buffer and over a stream of reads, the polynomial division they compute, and the
    burst errors they can never miss. */
module Crc32c {
  import opened Prelude
  import opened BitwiseXor

  const REFLECTED_POLY := 0x82F6_3B78
  const ALL_ONES := 0xFFFF_FFFF

  type u32 = x: int | 0 <= x < 0x1_0000_0000

  lemma Pow32()
    ensures Pow(2, 8) == 256
    ensures Pow(2, 31) == 0x8000_0000
    ensures Pow(2, 32) == 0x1_0000_0000
  {
    assert Pow(2, 8) == 256;
    PowAdd(2, 8, 8);
    PowAdd(2, 16, 16);
    assert Pow(2, 32) == 2 * Pow(2, 31);
  }

  function Xor32(a: u32, b: u32): u32 {
    Pow32();
    XorBound(a, b, 32);
    Xor(a, b)
  }

  // ---------------------------------------------------------------------------------------
  // The register: one reflected division step, and its algebra
  // ---------------------------------------------------------------------------------------

  function Step(c: u32): u32 {
    if c % 2 != 0 then Xor32(c / 2, REFLECTED_POLY) else c / 2
  }

  function Steps(c: u32, n: nat): u32
    decreases n
  {
    if n == 0 then c else Steps(Step(c), n - 1)
  }

  /** One message bit enters the register. */
  function Absorb(c: u32, bit: bool): u32 {
    Step(if bit then Xor32(c, 1) else c)
  }

  function AbsorbAll(c: u32, bits: seq<bool>): u32
    decreases |bits|
  {
    if bits == [] then c else AbsorbAll(Absorb(c, bits[0]), bits[1..])
  }

  /** The low `n` bits of `x`, least significant first. */
  function BitsOf(x: nat, n: nat): (bits: seq<bool>)
    ensures |bits| == n
    decreases n
  {
    if n == 0 then [] else [x % 2 == 1] + BitsOf(x / 2, n - 1)
  }

  /** The message as its bits enter the division: bytes in order, low bit first. */
  function MessageBits(data: seq<byte>): (bits: seq<bool>)
    ensures |bits| == 8 * |data|
  {
    if data == [] then [] else BitsOf(data[0], 8) + MessageBits(data[1..])
  }

  lemma MessageBitsAppend(a: seq<byte>, b: seq<byte>)
    ensures MessageBits(a + b) == MessageBits(a) + MessageBits(b)
  {
    if a == [] {
      assert a + b == b;
    } else {
      assert (a + b)[1..] == a[1..] + b;
      MessageBitsAppend(a[1..], b);
    }
  }

  lemma AbsorbAllAppend(c: u32, a: seq<bool>, b: seq<bool>)
    ensures AbsorbAll(c, a + b) == AbsorbAll(AbsorbAll(c, a), b)
    decreases |a|
  {
    if a == [] {
      assert a + b == b;
    } else {
      assert (a + b)[1..] == a[1..] + b;
      AbsorbAllAppend(Absorb(c, a[0]), a[1..], b);
    }
  }

  /** The division step is linear over exclusive or. */
  lemma StepXor(x: u32, y: u32)
    ensures Step(Xor32(x, y)) == Xor32(Step(x), Step(y))
  {
    hide Xor;
    var p := REFLECTED_POLY;
    XorHalf(x, y);
    if x % 2 != 0 && y % 2 != 0 {
      XorComm(p, Xor(y / 2, p));
      XorAssoc(x / 2, p, Xor(y / 2, p));
      XorCancel(y / 2, p);
    } else if x % 2 != 0 {
      XorAssoc(x / 2, y / 2, p);
      XorComm(y / 2, p);
      XorAssoc(x / 2, p, y / 2);
    } else if y % 2 != 0 {
      XorAssoc(x / 2, y / 2, p);
    }
  }

  lemma {:induction false} StepsXor(x: u32, y: u32, n: nat)
    ensures Steps(Xor32(x, y), n) == Xor32(Steps(x, n), Steps(y, n))
    decreases n
  {
    if n != 0 {
      StepXor(x, y);
      StepsXor(Step(x), Step(y), n - 1);
    }
  }

  /** The polynomial has a constant term, so a step loses nothing. */
  lemma StepInjective(x: u32, y: u32)
    requires Step(x) == Step(y)
    ensures x == y
  {
    var p := REFLECTED_POLY;
    Pow32();
    XorDiv(x / 2, p, 31);
    XorDiv(y / 2, p, 31);
    XorZero(1);
    XorCancel(x / 2, p);
    XorCancel(y / 2, p);
  }

  /** Absorbing the bits of a short word is the same as adding the word and stepping. */
  lemma {:induction false} AbsorbWord(c: u32, w: u32, n: nat)
    requires w < Pow(2, n)
    ensures AbsorbAll(c, BitsOf(w, n)) == Steps(Xor32(c, w), n)
    decreases n
  {
    if n == 0 {
      XorZero(c);
    } else {
      AbsorbLowBit(c, w);
      var c' := Absorb(c, w % 2 == 1);
      AbsorbWord(c', w / 2, n - 1);
      assert BitsOf(w, n)[1..] == BitsOf(w / 2, n - 1);
    }
  }

  lemma AbsorbLowBit(c: u32, w: u32)
    ensures Xor32(Absorb(c, w % 2 == 1), w / 2) == Step(Xor32(c, w))
  {
    hide Xor;
    // w = (w % 2) ^ 2 * (w / 2)
    var high, low := 2 * (w / 2), w % 2;
    XorDisjoint(w / 2, low, 1);
    assert Pow(2, 1) == 2;
    XorComm(high, low);
    XorAssoc(c, low, high);
    XorZero(c);
    StepXor(Xor32(c, low), high);
  }

  lemma {:induction false} StepsEven(c: u32, n: nat)
    requires c % Pow(2, n) == 0
    ensures Steps(c, n) == c / Pow(2, n)
    decreases n
  {
    if n != 0 {
      hide Xor;
      DivStep(c, n);
      StepsEven(c / 2, n - 1);
    }
  }

  lemma StepsClear(c: u32)
    requires c % 256 == 0
    ensures Steps(c, 8) == c / 256
  {
    Pow32();
    StepsEven(c, 8);
  }

  // ---------------------------------------------------------------------------------------
  // The table and the digest
  // ---------------------------------------------------------------------------------------

  ghost predicate IsTable(table: seq<u32>) {
    |table| == 256 && forall i :: 0 <= i < 256 ==> table[i] == Steps(i, 8)
  }

  method BuildTable() returns (table: seq<u32>)
    ensures IsTable(table)
  {
    hide Xor;
    var t := new u32[256];
    var i := 0;
    while i < 256
      invariant 0 <= i <= 256
      invariant forall j :: 0 <= j < i ==> t[j] == Steps(j, 8)
    {
      var crc: u32 := i;
      var k := 0;
      while k < 8
        invariant 0 <= k <= 8
        invariant Steps(crc, 8 - k) == Steps(i, 8)
      {
        crc := if crc % 2 != 0 then Xor32(crc / 2, REFLECTED_POLY) else crc / 2;
        k := k + 1;
      }
      t[i] := crc;
      i := i + 1;
    }
    table := t[..];
  }

  /** One table lookup absorbs the eight bits of one byte. */
  lemma TableStep(table: seq<u32>, crc: u32, b: byte)
    requires IsTable(table)
    ensures Xor32(crc / 256, table[Xor32(crc, b) % 256]) == AbsorbAll(crc, BitsOf(b, 8))
  {
    hide Xor, Steps, AbsorbAll, BitsOf;
    Pow32();
    AbsorbWord(crc, b, 8);
    var x := Xor32(crc, b);
    XorDisjoint(x / 256, x % 256, 8);
    StepsXor(x / 256 * 256, x % 256, 8);
    StepsClear(x / 256 * 256);
    XorDiv(crc, b, 8);
    XorZero(crc / 256);
  }

  /** CRC-32C of a message, by absorbing its bits one at a time. */
  function Crc(data: seq<byte>): u32 {
    Xor32(AbsorbAll(ALL_ONES, MessageBits(data)), ALL_ONES)
  }

  /** One round of the digest loop, on byte `i` of `buf`. */
  method DigestByte(table: seq<u32>, crc: u32, buf: seq<byte>, i: nat) returns (next: u32)
    requires IsTable(table) && i < |buf|
    ensures AbsorbAll(next, MessageBits(buf[i + 1..])) == AbsorbAll(crc, MessageBits(buf[i..]))
  {
    var b := buf[i];
    TableStep(table, crc, b);
    assert buf[i..][1..] == buf[i + 1..];
    AbsorbAllAppend(crc, BitsOf(b, 8), MessageBits(buf[i + 1..]));
    next := Xor32(crc / 256, table[Xor32(crc, b) % 256]);
  }

  method Digest(table: seq<u32>, data: seq<byte>) returns (crc: u32)
    requires IsTable(table)
    ensures crc == Crc(data)
  {
    crc := ALL_ONES;
    for i := 0 to |data|
      invariant AbsorbAll(crc, MessageBits(data[i..])) == AbsorbAll(ALL_ONES, MessageBits(data))
    {
      crc := DigestByte(table, crc, data, i);
    }
    crc := Xor32(crc, ALL_ONES);
  }

  method DigestStream(table: seq<u32>, bufs: seq<seq<byte>>) returns (total: nat, crc: u32)
    requires IsTable(table)
    ensures total == |FileBytes(bufs)|
    ensures crc == Crc(FileBytes(bufs))
  {
    crc, total := ALL_ONES, 0;
    var r := 0;
    while r < |bufs| && bufs[r] != []
      invariant 0 <= r <= |bufs|
      invariant total + |FileBytes(bufs[r..])| == |FileBytes(bufs)|
      invariant AbsorbAll(crc, MessageBits(FileBytes(bufs[r..]))) == AbsorbAll(ALL_ONES, MessageBits(FileBytes(bufs)))
    {
      ghost var before := crc;
      var buf := bufs[r];
      for i := 0 to |buf|
        invariant AbsorbAll(crc, MessageBits(buf[i..])) == AbsorbAll(before, MessageBits(buf))
      {
        crc := DigestByte(table, crc, buf, i);
      }
      ghost var rest := FileBytes(bufs[r + 1..]);
      assert bufs[r..][1..] == bufs[r + 1..];
      MessageBitsAppend(buf, rest);
      AbsorbAllAppend(before, MessageBits(buf), MessageBits(rest));
      total := total + |buf|;
      r := r + 1;
    }
    crc := Xor32(crc, ALL_ONES);
  }

  // ---------------------------------------------------------------------------------------
  // The reference: polynomial division over GF(2), section 12.1 of RFC 3720
  // ---------------------------------------------------------------------------------------

  /** Coefficients of the generator below x^32, from x^31 down: 0x1EDC6F41. */
  const GENERATOR: seq<bool> :=
    [false, false, false, true, true, true, true, false]     // 0x1E
    + ([true, true, false, true, true, true, false, false]   // 0xDC
       + ([false, true, true, false, true, true, true, true] // 0x6F
          + [false, true, false, false, false, false, false, true])) // 0x41

  function Repeat(bit: bool, n: nat): (s: seq<bool>)
    ensures |s| == n && forall i :: 0 <= i < n ==> s[i] == bit
  {
    seq(n, _ => bit)
  }


  /** Coefficientwise sum of `b` into the leading coefficients of `a`. */
  function AddTo(a: seq<bool>, b: seq<bool>): (s: seq<bool>)
    requires |b| <= |a|
    ensures |s| == |a|
  {
    seq(|a|, i requires 0 <= i < |a| => if i < |b| then a[i] != b[i] else a[i])
  }

  /** Schoolbook long division by x^32 + GENERATOR, the dividend's leading coefficient first:
      the 32 coefficients of the remainder. */
  function Remainder(d: seq<bool>): (r: seq<bool>)
    requires |d| >= 32
    ensures |r| == 32
    decreases |d|
  {
    if |d| == 32 then d
    else if d[0] then Remainder(AddTo(d[1..], GENERATOR))
    else Remainder(d[1..])
  }

  function Complement(bits: seq<bool>): (r: seq<bool>)
    ensures |r| == |bits|
  {
    seq(|bits|, i requires 0 <= i < |bits| => !bits[i])
  }

  /** The CRC field of RFC 3720: the message polynomial times x^32, its first 32 coefficients
      complemented, is divided by the generator; the remainder is complemented. */
  function RfcCrc(message: seq<bool>): (r: seq<bool>)
    ensures |r| == 32
  {
    Complement(Remainder(AddTo(message + Repeat(false, 32), Repeat(true, 32))))
  }

  lemma {:induction false} BitsSplit(x: nat, m: nat, n: nat)
    ensures BitsOf(x, m + n) == BitsOf(x, m) + BitsOf(x / Pow(2, m), n)
    decreases m
  {
    if m != 0 {
      BitsSplit(x / 2, m - 1, n);
      DivStep(x, m);
    }
  }

  /** Reading the reflected constant low bit first gives the generator's coefficients. */
  lemma GeneratorReflected()
    ensures BitsOf(REFLECTED_POLY, 32) == GENERATOR
  {
    hide BitsOf, Pow;
    Pow32();
    var p := REFLECTED_POLY;
    BitsSplit(p, 8, 24);
    BitsSplit(p / 256, 8, 16);
    BitsSplit(p / 256 / 256, 8, 8);
    OctetBits(p);
    OctetBits(p / 256);
    OctetBits(p / 256 / 256);
    OctetBits(p / 256 / 256 / 256);
    GeneratorOctets(p);
  }

  lemma GeneratorOctets(p: nat)
    requires p == REFLECTED_POLY
    ensures p % 256 == 0x78 && p / 256 % 256 == 0x3B
    ensures p / 256 / 256 % 256 == 0xF6 && p / 256 / 256 / 256 == 0x82
  {
  }

  lemma OctetBits(x: nat)
    ensures BitsOf(x, 8) == [x % 2 == 1, x / 2 % 2 == 1, x / 4 % 2 == 1, x / 8 % 2 == 1,
                             x / 16 % 2 == 1, x / 32 % 2 == 1, x / 64 % 2 == 1, x / 128 % 2 == 1]
  {
    hide BitsOf, Pow;
    Sixteen();
    BitsSplit(x, 4, 4);
    NibbleBits(x);
    NibbleBits(x / 16);
    Sixteenths(x);
  }

  lemma Sixteenths(x: nat)
    ensures x / 16 / 2 == x / 32 && x / 16 / 4 == x / 64 && x / 16 / 8 == x / 128
  {
  }

  lemma Sixteen()
    ensures Pow(2, 4) == 16
  {
  }

  lemma NibbleBits(x: nat)
    ensures BitsOf(x, 4) == [x % 2 == 1, x / 2 % 2 == 1, x / 4 % 2 == 1, x / 8 % 2 == 1]
  {
    assert x / 2 / 2 == x / 4 && x / 4 / 2 == x / 8;
  }

  lemma {:induction false} BitsOfXor(a: nat, b: nat, n: nat)
    ensures BitsOf(Xor(a, b), n) == AddTo(BitsOf(a, n), BitsOf(b, n))
    decreases n
  {
    if n != 0 {
      hide Xor;
      XorHalf(a, b);
      BitsOfXor(a / 2, b / 2, n - 1);
    }
  }

  lemma {:induction false} BitsOfHalf(c: nat, n: nat)
    requires c < Pow(2, n)
    ensures n > 0 ==> BitsOf(c / 2, n) == BitsOf(c, n)[1..] + [false]
    decreases n
  {
    if n == 1 {
      assert BitsOf(c / 2, 1) == [false];
    } else if n != 0 {
      BitsOfHalf(c / 2, n - 1);
    }
  }

  /** One bit through the register is one column of the long division. */
  lemma AbsorbDivides(c: u32, bit: bool)
    ensures var r := BitsOf(c, 32);
            var shifted := r[1..] + [false];
            BitsOf(Absorb(c, bit), 32) == if r[0] != bit then AddTo(shifted, GENERATOR) else shifted
  {
    hide BitsOf;
    var c' := if bit then Xor32(c, 1) else c;
    FlipLowBit(c);
    Pow32();
    BitsOfHalf(c, 32);
    BitsHead(c);
    BitsOfXor(c / 2, REFLECTED_POLY, 32);
    GeneratorReflected();
  }

  lemma FlipLowBit(c: u32)
    ensures Xor32(c, 1) / 2 == c / 2 && Xor32(c, 1) % 2 != c % 2
  {
    XorHalf(c, 1);
    XorZero(c / 2);
  }

  lemma BitsHead(c: nat)
    ensures BitsOf(c, 32)[0] <==> c % 2 == 1
  {
  }

  /** The register after a message is the remainder of the message, shifted past the register
      and with the register's start added to its leading coefficients. */
  lemma {:induction false} RegisterIsRemainder(c: u32, m: seq<bool>)
    ensures Remainder(AddTo(m + Repeat(false, 32), BitsOf(c, 32))) == BitsOf(AbsorbAll(c, m), 32)
    decreases |m|
  {
    hide BitsOf, Absorb;
    var zeros, r := Repeat(false, 32), BitsOf(c, 32);
    var d := AddTo(m + zeros, r);
    if m == [] {
      assert d == r;
    } else {
      var shifted, c' := r[1..] + [false], Absorb(c, m[0]);
      RegisterIsRemainder(c', m[1..]);
      AbsorbDivides(c, m[0]);
      assert m + zeros == [m[0]] + (m[1..] + zeros);
      assert d[1..] == AddTo(m[1..] + zeros, shifted);
      if d[0] {
        assert AddTo(d[1..], GENERATOR) == AddTo(m[1..] + zeros, AddTo(shifted, GENERATOR));
      }
    }
  }

  /** The digest every entry point computes is the CRC field RFC 3720 prescribes, read with
      the coefficient of x^31 in the low bit. */
  lemma CrcIsPolynomialDivision(data: seq<byte>)
    ensures BitsOf(Crc(data), 32) == RfcCrc(MessageBits(data))
  {
    var m := MessageBits(data);
    OnesBits(32);
    Pow32();
    RegisterIsRemainder(ALL_ONES, m);
    BitsOfXor(AbsorbAll(ALL_ONES, m), ALL_ONES, 32);
    hide BitsOf;
  }

  lemma {:induction false} OnesBits(n: nat)
    ensures BitsOf(Pow(2, n) - 1, n) == Repeat(true, n)
  {
    if n != 0 {
      assert (Pow(2, n) - 1) / 2 == Pow(2, n - 1) - 1;
      OnesBits(n - 1);
    }
  }

  // ---------------------------------------------------------------------------------------
  // Burst errors
  // ---------------------------------------------------------------------------------------

  lemma {:induction false} AbsorbAllInjective(c: u32, c': u32, bits: seq<bool>)
    requires AbsorbAll(c, bits) == AbsorbAll(c', bits)
    ensures c == c'
    decreases |bits|
  {
    if bits != [] {
      AbsorbAllInjective(Absorb(c, bits[0]), Absorb(c', bits[0]), bits[1..]);
      hide Xor;
      StepInjective(if bits[0] then Xor32(c, 1) else c, if bits[0] then Xor32(c', 1) else c');
      XorCancel(c, 1);
      XorCancel(c', 1);
    }
  }

  lemma {:induction false} StepsInjective(c: u32, c': u32, n: nat)
    requires Steps(c, n) == Steps(c', n)
    ensures c == c'
    decreases n
  {
    if n != 0 {
      StepsInjective(Step(c), Step(c'), n - 1);
      StepInjective(c, c');
    }
  }

  /** The word whose low bits are `bits`, least significant first. */
  function Word(bits: seq<bool>): (w: nat)
    ensures w < Pow(2, |bits|)
  {
    if bits == [] then 0 else (if bits[0] then 1 else 0) + 2 * Word(bits[1..])
  }

  lemma {:induction false} BitsOfWord(bits: seq<bool>)
    ensures BitsOf(Word(bits), |bits|) == bits
  {
    if bits != [] {
      BitsOfWord(bits[1..]);
      assert Word(bits) / 2 == Word(bits[1..]);
    }
  }

  lemma {:induction false} PowMonotone(m: nat, n: nat)
    requires m <= n
    ensures Pow(2, m) <= Pow(2, n)
    decreases n
  {
    if m < n {
      PowMonotone(m, n - 1);
    }
  }

  /** A register tells apart any two messages of the same length up to its own width. */
  lemma ShortMessagesDiffer(c: u32, u: seq<bool>, v: seq<bool>)
    requires |u| == |v| <= 32
    requires AbsorbAll(c, u) == AbsorbAll(c, v)
    ensures u == v
  {
    var n, a, b := |u|, Word(u), Word(v);
    PowMonotone(n, 32);
    Pow32();
    BitsOfWord(u);
    BitsOfWord(v);
    AbsorbWord(c, a, n);
    AbsorbWord(c, b, n);
    StepsInjective(Xor32(c, a), Xor32(c, b), n);
    hide Xor;
    XorComm(c, a);
    XorComm(c, b);
    XorCancel(a, c);
    XorCancel(b, c);
  }

  /** Two messages that agree outside 32 consecutive bits have different digests. */
  lemma BurstDetected(head: seq<bool>, u: seq<bool>, v: seq<bool>, tail: seq<bool>)
    requires |u| == |v| <= 32 && u != v
    ensures AbsorbAll(ALL_ONES, head + u + tail) != AbsorbAll(ALL_ONES, head + v + tail)
  {
    var c := AbsorbAll(ALL_ONES, head);
    if AbsorbAll(ALL_ONES, head + u + tail) == AbsorbAll(ALL_ONES, head + v + tail) {
      AbsorbAllAppend(ALL_ONES, head + u, tail);
      AbsorbAllAppend(ALL_ONES, head + v, tail);
      AbsorbAllAppend(ALL_ONES, head, u);
      AbsorbAllAppend(ALL_ONES, head, v);
      AbsorbAllInjective(AbsorbAll(c, u), AbsorbAll(c, v), tail);
      ShortMessagesDiffer(c, u, v);
    }
  }

  lemma {:induction false} MessageBitsInjective(u: seq<byte>, v: seq<byte>)
    requires |u| == |v| && MessageBits(u) == MessageBits(v)
    ensures u == v
  {
    if u != [] {
      assert MessageBits(u)[..8] == BitsOf(u[0], 8) && MessageBits(u)[8..] == MessageBits(u[1..]);
      assert MessageBits(v)[..8] == BitsOf(v[0], 8) && MessageBits(v)[8..] == MessageBits(v[1..]);
      Pow32();
      BitsInjective(u[0], v[0], 8);
      MessageBitsInjective(u[1..], v[1..]);
    }
  }

  lemma {:induction false} BitsInjective(x: nat, y: nat, n: nat)
    requires x < Pow(2, n) && y < Pow(2, n) && BitsOf(x, n) == BitsOf(y, n)
    ensures x == y
    decreases n
  {
    if n != 0 {
      assert BitsOf(x, n)[1..] == BitsOf(x / 2, n - 1);
      assert BitsOf(y, n)[1..] == BitsOf(y / 2, n - 1);
      assert BitsOf(x, n)[0] == BitsOf(y, n)[0];
      BitsInjective(x / 2, y / 2, n - 1);
    }
  }

  /** Two files of one length that differ, but only within four consecutive bytes, never
      have the same CRC-32C. */
  lemma FourByteBurstDetected(a: seq<byte>, b: seq<byte>, at: nat, n: nat)
    requires |a| == |b| && a != b
    requires n <= 4 && at + n <= |a|
    requires a[..at] == b[..at] && a[at + n..] == b[at + n..]
    ensures Crc(a) != Crc(b)
  {
    var head, tail := a[..at], a[at + n..];
    var u, v := a[at..at + n], b[at..at + n];
    assert a == head + u + tail;
    assert b == head + v + tail;
    MessageBitsAppend(head + u, tail);
    MessageBitsAppend(head, u);
    MessageBitsAppend(head + v, tail);
    MessageBitsAppend(head, v);
    if MessageBits(u) == MessageBits(v) {
      MessageBitsInjective(u, v);
    }
    BurstDetected(MessageBits(head), MessageBits(u), MessageBits(v), MessageBits(tail));
    hide Xor;
    XorCancel(AbsorbAll(ALL_ONES, MessageBits(a)), ALL_ONES);
    XorCancel(AbsorbAll(ALL_ONES, MessageBits(b)), ALL_ONES);
  }
}
