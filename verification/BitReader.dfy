/** The 32-bit bit reader of tool/src/dct2s.rs with FF00 unstuffing, against the plain stream
    of bits that is left to read. */
module BitReader {
  import opened Prelude
  import opened Positional
  import opened Huffman

  // ---------------------------------------------------------------------------------------
  // The bits of an entropy-coded segment
  // ---------------------------------------------------------------------------------------

  /** How a segment stops: at its last byte, at an FF that is its last byte, or at an FF that
      is followed by anything but 00. */
  datatype Ending = AtEnd | LoneFF | Marker

  /** The bytes the bits are taken from: 00 after FF is dropped, nothing follows a marker. */
  function Unstuff(data: seq<byte>): seq<byte> {
    if data == [] then []
    else if data[0] != 0xFF then [data[0]] + Unstuff(data[1..])
    else if |data| == 1 || data[1] != 0 then []
    else [0xFF] + Unstuff(data[2..])
  }

  function EndingOf(data: seq<byte>): Ending {
    if data == [] then AtEnd
    else if data[0] != 0xFF then EndingOf(data[1..])
    else if |data| == 1 then LoneFF
    else if data[1] != 0 then Marker
    else EndingOf(data[2..])
  }

  function ByteBits(data: seq<byte>): (bits: seq<bit>)
    ensures |bits| == 8 * |data|
  {
    if data == [] then [] else Digits(2, 8, data[0]) + ByteBits(data[1..])
  }

  // ---------------------------------------------------------------------------------------
  // Reading, on the stream of bits
  // ---------------------------------------------------------------------------------------

  datatype Stream = Stream(bits: seq<bit>, ending: Ending)

  datatype ReadError = BitUnderflow

  /** The first `n` bits as a number; missing bits are 0. */
  function Peek(bits: seq<bit>, n: nat): nat {
    Value(2, if n <= |bits| then bits[..n] else bits + Zeros(n - |bits|))
  }

  function Zeros(n: nat): (z: seq<bit>)
    ensures |z| == n
  {
    seq(n, _ => 0)
  }

  /** A read of `n` bits, through a table or raw. Over 25 or 0 bits nothing is read. A short
      read at the end of the data gives 0 and consumes nothing; elsewhere missing bits read
      as 0, and consuming more than there is fails. A table read consumes the code's length. */
  function Get(s: Stream, n: nat, huff: Option<seq<nat>>): (Result<nat, ReadError>, Stream)
    requires huff.Some? ==> |huff.value| == Pow(2, n)
  {
    if n > 25 || n == 0 then (Ok(0), s)
    else if |s.bits| < n && s.ending == AtEnd then (Ok(0), s)
    else
      PeekBound(s.bits, n);
      var c := Peek(s.bits, n);
      var used := if huff.Some? then huff.value[c] / 256 else n;
      var value := if huff.Some? then huff.value[c] % 256 else c;
      var ending := if |s.bits| < n && s.ending == LoneFF then AtEnd else s.ending;
      if used > |s.bits| then (Err(BitUnderflow), s) else (Ok(value), Stream(s.bits[used..], ending))
  }

  lemma PeekBound(bits: seq<bit>, n: nat)
    ensures Peek(bits, n) < Pow(2, n)
  {
    ValueBound(2, if n <= |bits| then bits[..n] else bits + Zeros(n - |bits|));
  }

  // ---------------------------------------------------------------------------------------
  // Binary digits of the buffer
  // ---------------------------------------------------------------------------------------

  lemma {:induction false} DigitsDrop(m: nat, x: nat, l: nat)
    requires l <= m
    ensures Digits(2, m, x)[l..] == Digits(2, m - l, x)
    decreases m
  {
    if l < m {
      DigitsDrop(m - 1, x / 2, l);
      assert Digits(2, m, x)[l..] == Digits(2, m - 1, x / 2)[l..] + [x % 2];
    }
  }

  lemma {:induction false} DigitsConcat(v: nat, w: nat, x: nat, c: nat)
    requires c < Pow(2, w)
    ensures Digits(2, v + w, x * Pow(2, w) + c) == Digits(2, v, x) + Digits(2, w, c)
    decreases w
  {
    if w > 0 {
      var p := Pow(2, w - 1);
      HalfShift(x, p, c);
      DigitsConcat(v, w - 1, x, c / 2);
    }
  }

  lemma HalfShift(x: nat, p: nat, c: nat)
    ensures (x * (2 * p) + c) / 2 == x * p + c / 2 && (x * (2 * p) + c) % 2 == c % 2
  {
    MulAssociates(x, 2, p);
    MulAssociates(2, x, p);
    DivUnique(x * (2 * p) + c, 2, x * p + c / 2, c % 2);
  }

  /** Digits below a power of two do not see multiples of it. */
  lemma {:induction false} DigitsWrap(k: nat, m: nat, n: nat)
    requires k <= m
    ensures Digits(2, k, n % Pow(2, m)) == Digits(2, k, n)
    decreases k
  {
    if k > 0 {
      SplitModulus(n, 2, Pow(2, m - 1));
      LastDigit(2, n / 2 % Pow(2, m - 1), n % 2);
      DigitsWrap(k - 1, m - 1, n / 2);
    }
  }

  lemma Pow2()
    ensures Pow(2, 8) == 256 && Pow(2, 32) == 0x1_0000_0000
  {
    assert Pow(2, 8) == 256;
    PowAdd(2, 8, 8);
    PowAdd(2, 16, 16);
  }

  /** One byte enters the 32-bit buffer from the right. */
  lemma BufferByte(v: nat, x: nat, c: byte)
    requires v + 8 <= 32
    ensures Digits(2, v + 8, (x * 256 + c) % 0x1_0000_0000) == Digits(2, v, x) + Digits(2, 8, c)
  {
    hide Digits, Pow;
    Pow2();
    DigitsConcat(v, 8, x, c);
    DigitsWrap(v + 8, 32, x * 256 + c);
  }

  /** Shifting the `v` buffered bits to the top and the first `n` of them back down reads
      those, with zeros for the missing ones. */
  lemma BufferTop(v: nat, x: nat, n: nat)
    requires 1 <= v <= 32 && 1 <= n <= 32
    ensures x * Pow(2, 32 - v) % 0x1_0000_0000 / Pow(2, 32 - n) == Peek(Digits(2, v, x), n)
  {
    hide Digits, Pow, Value;
    var y := x % Pow(2, v);
    Pow2();
    PowAdd(2, v, 32 - v);
    ShiftModulo(x, Pow(2, v), Pow(2, 32 - v));
    var bits := Digits(2, v, x);
    ValueOfDigits(2, v, x);
    if n <= v {
      DigitsTake(v, x, n);
      ValueOfDigits(2, n, x / Pow(2, v - n));
      PowAdd(2, 32 - v, v - n);
      DivShift(y, Pow(2, v - n), Pow(2, 32 - v));
      PowAdd(2, n, v - n);
      DivModulo(x, Pow(2, v - n), Pow(2, n));
    } else {
      ValueAppend(2, bits, Zeros(n - v));
      ValueZeros(2, Zeros(n - v));
      PowAdd(2, n - v, 32 - n);
      MulAssociates(y, Pow(2, n - v), Pow(2, 32 - n));
      DivExact(y * Pow(2, n - v), Pow(2, 32 - n));
    }
  }

  lemma ShiftModulo(x: nat, p: nat, q: nat)
    requires p > 0 && q > 0 && p * q > 0
    ensures x * q % (p * q) == x % p * q
  {
    DivMod(x, p);
    MulDistributes(p * (x / p), x % p, q);
    MulAssociates(p, x / p, q);
    MulAssociates(p, q, x / p);
    MulGap(q, x % p, p);
    DivUnique(x * q, p * q, x / p, x % p * q);
  }

  lemma DivShift(y: nat, a: nat, b: nat)
    requires a > 0 && b > 0 && b * a > 0
    ensures y * b / (b * a) == y / a
  {
    DivMod(y, a);
    MulDistributes(a * (y / a), y % a, b);
    MulAssociates(b, a, y / a);
    MulGap(b, y % a, a);
    DivUnique(y * b, b * a, y / a, y % a * b);
  }

  lemma DivModulo(x: nat, a: nat, b: nat)
    requires a > 0 && b > 0 && b * a > 0
    ensures x % (b * a) / a == x / a % b
  {
    DivMod(x, a);
    DivMod(x / a, b);
    DivModuloAt(a, b, x / a / b, x / a % b, x % a);
  }

  lemma DivModuloAt(a: nat, b: nat, q: nat, r: nat, s: nat)
    requires r < b && s < a && b * a > 0
    ensures (a * (b * q + r) + s) % (b * a) / a == r
  {
    Regroup(a, b, q, r, s);
    DivUnique(a * (b * q + r) + s, b * a, q, a * r + s);
    DivUnique(a * r + s, a, r, s);
  }

  lemma DivExact(a: nat, p: nat)
    requires p > 0
    ensures a * p / p == a
  {
    DivUnique(a * p, p, a, 0);
  }

  // ---------------------------------------------------------------------------------------
  // The bytes not yet taken
  // ---------------------------------------------------------------------------------------

  function RestBits(data: seq<byte>, i: nat): seq<bit>
    requires i <= |data|
  {
    ByteBits(Unstuff(data[i..]))
  }

  lemma RestNone(data: seq<byte>)
    ensures RestBits(data, |data|) == [] && EndingOf(data[|data|..]) == AtEnd
  {
  }

  lemma ByteBitsCons(c: byte, more: seq<byte>)
    ensures ByteBits([c] + more) == Digits(2, 8, c) + ByteBits(more)
  {
    assert ([c] + more)[1..] == more;
  }

  lemma RestPlain(data: seq<byte>, i: nat)
    requires i < |data| && data[i] != 0xFF
    ensures RestBits(data, i) == Digits(2, 8, data[i]) + RestBits(data, i + 1)
    ensures EndingOf(data[i..]) == EndingOf(data[i + 1..])
  {
    hide ByteBits, Digits;
    assert data[i..][1..] == data[i + 1..];
    ByteBitsCons(data[i], Unstuff(data[i + 1..]));
  }

  lemma RestStuffed(data: seq<byte>, i: nat)
    requires i + 1 < |data| && data[i] == 0xFF && data[i + 1] == 0
    ensures RestBits(data, i) == Digits(2, 8, 0xFF) + RestBits(data, i + 2)
    ensures EndingOf(data[i..]) == EndingOf(data[i + 2..])
  {
    hide ByteBits, Digits;
    assert data[i..][2..] == data[i + 2..];
    ByteBitsCons(0xFF, Unstuff(data[i + 2..]));
  }

  lemma RestStops(data: seq<byte>, i: nat)
    requires i < |data| && data[i] == 0xFF && (i + 1 == |data| || data[i + 1] != 0)
    ensures RestBits(data, i) == []
    ensures EndingOf(data[i..]) == if i + 1 == |data| then LoneFF else Marker
  {
  }

  lemma PeekPrefix(buffered: seq<bit>, rest: seq<bit>, n: nat)
    requires n <= |buffered| || rest == []
    ensures Peek(buffered + rest, n) == Peek(buffered, n)
  {
    hide Value;
    if n <= |buffered| {
      assert (buffered + rest)[..n] == buffered[..n];
    } else {
      assert buffered + rest == buffered;
    }
  }

  lemma PeekNothing(n: nat)
    ensures Peek([], n) == 0
  {
    assert [] + Zeros(n) == Zeros(n);
    ValueZeros(2, Zeros(n));
    NoBits([]);
  }

  lemma BufferGrows(buffered: seq<bit>, c: seq<bit>, rest: seq<bit>)
    ensures (buffered + c) + rest == buffered + (c + rest)
  {
  }

  /** `(bitbuf << (32 - vbits)) >> (32 - nbits)` on 32 bits, 0 when nothing is buffered. */
  function Top(v: nat, x: nat, n: nat): nat
    requires v <= 32 && n <= 32
  {
    if v == 0 then 0 else x * Pow(2, 32 - v) % 0x1_0000_0000 / Pow(2, 32 - n)
  }

  lemma TopPeeks(v: nat, x: nat, n: nat, rest: seq<bit>)
    requires v <= 32 && 1 <= n <= 32 && (n <= v || rest == [])
    ensures Top(v, x, n) == Peek(Digits(2, v, x) + rest, n) < Pow(2, n)
  {
    hide Digits, Pow, Value, Peek;
    PeekPrefix(Digits(2, v, x), rest, n);
    PeekBound(Digits(2, v, x) + rest, n);
    if v == 0 {
      PeekNothing(n);
      assert Digits(2, v, x) == [];
    } else {
      BufferTop(v, x, n);
    }
  }

  lemma BufferShrinks(v: nat, x: nat, used: nat, rest: seq<bit>)
    requires used <= v
    ensures Digits(2, v - used, x) + rest == (Digits(2, v, x) + rest)[used..]
  {
    hide Digits;
    DigitsDrop(v, x, used);
  }

  /** What is left to read: the `v` buffered bits, then those of the bytes not yet taken. */
  function LeftOf(data: seq<byte>, i: nat, x: nat, v: nat, reset: bool): Stream
    requires i <= |data|
  {
    Stream(Digits(2, v, x) + (if reset then [] else RestBits(data, i)), if reset then Marker else EndingOf(data[i..]))
  }

  lemma TakesPlain(data: seq<byte>, i: nat, x: nat, v: nat)
    requires i < |data| && data[i] != 0xFF && v + 8 <= 32
    ensures LeftOf(data, i + 1, (x * 256 + data[i]) % 0x1_0000_0000, v + 8, false) == LeftOf(data, i, x, v, false)
  {
    hide Digits, RestBits, EndingOf;
    RestPlain(data, i);
    BufferByte(v, x, data[i]);
    BufferGrows(Digits(2, v, x), Digits(2, 8, data[i]), RestBits(data, i + 1));
  }

  lemma TakesStuffed(data: seq<byte>, i: nat, x: nat, v: nat)
    requires i + 1 < |data| && data[i] == 0xFF && data[i + 1] == 0 && v + 8 <= 32
    ensures LeftOf(data, i + 2, (x * 256 + 0xFF) % 0x1_0000_0000, v + 8, false) == LeftOf(data, i, x, v, false)
  {
    hide Digits, RestBits, EndingOf;
    RestStuffed(data, i);
    BufferByte(v, x, 0xFF);
    BufferGrows(Digits(2, v, x), Digits(2, 8, 0xFF), RestBits(data, i + 2));
  }

  lemma TakesNone(data: seq<byte>, x: nat, v: nat)
    ensures LeftOf(data, |data|, x, v, false).ending == AtEnd && |LeftOf(data, |data|, x, v, false).bits| == v
  {
    hide Digits;
    RestNone(data);
  }

  lemma TakesMarker(data: seq<byte>, i: nat, x: nat, v: nat)
    requires i < |data| && data[i] == 0xFF && (i + 1 == |data| || data[i + 1] != 0)
    ensures var left := LeftOf(data, i, x, v, false);
            && |left.bits| == v && left.ending == (if i + 1 == |data| then LoneFF else Marker)
            && (i + 1 == |data| ==> LeftOf(data, |data|, x, v, false) == left.(ending := AtEnd))
            && (i + 1 < |data| ==> LeftOf(data, i + 2, x, v, true) == left.(ending := Marker))
  {
    hide Digits, RestBits;
    RestStops(data, i);
    RestNone(data);
  }

  lemma LeftSize(data: seq<byte>, i: nat, x: nat, v: nat, reset: bool)
    requires i <= |data|
    ensures |LeftOf(data, i, x, v, reset).bits| >= v
    ensures reset ==> |LeftOf(data, i, x, v, reset).bits| == v && LeftOf(data, i, x, v, reset).ending == Marker
  {
    hide Digits, RestBits;
  }

  lemma Consumes(data: seq<byte>, i: nat, x: nat, v: nat, reset: bool, n: nat, used: nat)
    requires i <= |data| && v <= 32 && 1 <= n <= 25
    requires n <= v || |LeftOf(data, i, x, v, reset).bits| == v
    ensures Top(v, x, n) == Peek(LeftOf(data, i, x, v, reset).bits, n) < Pow(2, n)
    ensures var left := LeftOf(data, i, x, v, reset);
            && v <= |left.bits|
            && (used <= v ==> LeftOf(data, i, x, v - used, reset) == left.(bits := left.bits[used..]))
  {
    hide Digits, RestBits, EndingOf, Top, Peek, Pow;
    var rest := if reset then [] else RestBits(data, i);
    TopPeeks(v, x, n, rest);
    if used <= v {
      BufferShrinks(v, x, used, rest);
    }
  }

  // ---------------------------------------------------------------------------------------
  // The reader
  // ---------------------------------------------------------------------------------------

  class BitReader {
    const data: seq<byte>
    var i: nat
    var bitbuf: nat
    var vbits: int
    var reset: bool

    ghost predicate Valid()
      reads this
    {
      i <= |data| && bitbuf < 0x1_0000_0000 && 0 <= vbits <= 32
    }

    /** What is left to read: the buffered bits, then those of the bytes not yet taken. */
    ghost function Left(): Stream
      reads this
      requires Valid()
    {
      LeftOf(data, i, bitbuf, vbits, reset)
    }

    constructor (data: seq<byte>)
      ensures Valid() && Left() == Stream(ByteBits(Unstuff(data)), EndingOf(data))
      ensures this.data == data
    {
      this.data := data;
      i, bitbuf, vbits, reset := 0, 0, 0, false;
      new;
      assert data[0..] == data;
      assert Digits(2, 0, 0) == [];
      assert [] + ByteBits(Unstuff(data)) == ByteBits(Unstuff(data));
    }

    /** Take bytes until `nbits` are buffered or no more can be had; `ended` if the data ends
        where a byte is wanted. */
    method Refill(nbits: nat) returns (ended: bool)
      requires Valid() && nbits <= 25
      modifies this
      ensures Valid() && Left().bits == old(Left().bits)
      ensures ended ==> |Left().bits| < nbits && old(Left().ending) == AtEnd && Left() == old(Left())
      ensures !ended && |Left().bits| >= nbits ==> vbits >= nbits && Left() == old(Left())
      ensures !ended && |Left().bits| < nbits ==>
                && vbits == |Left().bits| && old(Left().ending) != AtEnd
                && Left().ending == if old(Left().ending) == LoneFF then AtEnd else Marker
    {
      hide LeftOf;
      while !reset && vbits < nbits
        invariant Valid() && Left() == old(Left())
        decreases if reset then 0 else 1, |data| - i
      {
        ghost var at := i;
        if i >= |data| {
          TakesNone(data, bitbuf, vbits);
          return true;
        }
        var c := data[i];
        i := i + 1;
        if c == 0xFF {
          if i >= |data| {
            TakesMarker(data, at, bitbuf, vbits);
            return false;
          }
          var nxt := data[i];
          i := i + 1;
          if nxt == 0 {
            TakesStuffed(data, at, bitbuf, vbits);
            bitbuf := (bitbuf * 256 + 0xFF) % 0x1_0000_0000;
            vbits := vbits + 8;
            continue;
          }
          TakesMarker(data, at, bitbuf, vbits);
          reset := true;
          return false;
        }
        TakesPlain(data, at, bitbuf, vbits);
        bitbuf := (bitbuf * 256 + c) % 0x1_0000_0000;
        vbits := vbits + 8;
      }
      LeftSize(data, i, bitbuf, vbits, reset);
      return false;
    }

    method GetBitHuff(nbits: nat, huff: Option<seq<nat>>) returns (r: Result<nat, ReadError>)
      requires Valid()
      requires huff.Some? ==> |huff.value| == Pow(2, nbits) && forall e :: 0 <= e < |huff.value| ==> huff.value[e] / 256 <= nbits
      modifies this
      ensures r == Get(old(Left()), nbits, huff).0
      ensures r.Ok? ==> Valid() && Left() == Get(old(Left()), nbits, huff).1
      // Where every FF is followed by 00 the reader never enters its reset mode.
      ensures r.Ok? && old(Left().ending) == AtEnd ==> !reset && Left().ending == AtEnd
    {
      hide LeftOf, Pow, Peek, Top;
      LeftSize(data, i, bitbuf, vbits, reset);
      if nbits > 25 {
        return Ok(0);
      }
      if nbits == 0 || vbits < 0 {
        return Ok(0);
      }
      var ended := Refill(nbits);
      if ended {
        LeftSize(data, i, bitbuf, vbits, reset);
        return Ok(0);
      }
      Consumes(data, i, bitbuf, vbits, reset, nbits, 0);
      var c := Top(vbits, bitbuf, nbits);
      var used, value: nat := nbits, c;
      if huff.Some? {
        var e := huff.value[c];
        used, value := e / 256, e % 256;
      }
      Consumes(data, i, bitbuf, vbits, reset, nbits, used);
      LeftSize(data, i, bitbuf, vbits, reset);
      vbits := vbits - used;
      if vbits < 0 {
        return Err(BitUnderflow);
      }
      return Ok(value);
    }

    method ResetBits()
      requires i <= |data|
      modifies this
      ensures Valid() && i == old(i) && Left() == Stream(ByteBits(Unstuff(data[i..])), EndingOf(data[i..]))
    {
      bitbuf, vbits, reset := 0, 0, false;
      assert Digits(2, 0, 0) == [];
    }
  }
}
