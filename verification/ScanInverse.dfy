/** Decoding a scan inverts its coding: blocks coded as in sections F.1.2.1 to F.1.2.3 of
    ITU-T T.81 come back from the decoder of tool/src/dct2s.rs. */
module ScanInverse {
  import opened Prelude
  import opened Positional
  import opened Huffman
  import opened BitReader
  import opened Scan

  // ---------------------------------------------------------------------------------------
  // Bits into bytes
  // ---------------------------------------------------------------------------------------

  function Pack(bits: seq<bit>): (data: seq<byte>)
    requires |bits| % 8 == 0
  {
    if bits == [] then []
    else
      OctetBound(bits[..8]);
      [Value(2, bits[..8])] + Pack(bits[8..])
  }

  lemma OctetBound(bits: seq<bit>)
    requires |bits| == 8
    ensures Value(2, bits) < 256
  {
    hide Value, Pow;
    ValueBound(2, bits);
    Pow2();
  }

  /** Byte stuffing: 00 after every FF. */
  function Stuff(data: seq<byte>): seq<byte> {
    if data == [] then [] else (if data[0] == 0xFF then [0xFF, 0] else [data[0]]) + Stuff(data[1..])
  }

  lemma {:induction false} UnstuffStuff(data: seq<byte>)
    ensures Unstuff(Stuff(data)) == data && EndingOf(Stuff(data)) == AtEnd
  {
    if data != [] {
      UnstuffStuff(data[1..]);
      var s := Stuff(data);
      if data[0] == 0xFF {
        assert s[2..] == Stuff(data[1..]);
      } else {
        assert s[1..] == Stuff(data[1..]);
      }
    }
  }

  lemma {:induction false} ByteBitsPack(bits: seq<bit>)
    requires |bits| % 8 == 0
    ensures ByteBits(Pack(bits)) == bits
  {
    hide Value, Digits;
    if bits != [] {
      ByteBitsPack(bits[8..]);
      OctetBound(bits[..8]);
      DigitsOfValue(2, bits[..8]);
      ByteBitsCons(Value(2, bits[..8]), Pack(bits[8..]));
    }
  }

  // ---------------------------------------------------------------------------------------
  // Magnitudes
  // ---------------------------------------------------------------------------------------

  function Abs(v: int): nat {
    if v < 0 then -v else v
  }

  /** How many bits a magnitude has. */
  function Category(v: nat): nat {
    if v == 0 then 0 else 1 + Category(v / 2)
  }

  lemma {:induction false} CategoryBounds(v: nat)
    requires v > 0
    ensures Category(v) > 0 && Pow(2, Category(v) - 1) <= v < Pow(2, Category(v))
  {
    if v > 1 {
      CategoryBounds(v / 2);
    }
  }

  lemma CategoryAtMost(v: nat, k: nat)
    requires v < Pow(2, k)
    ensures Category(v) <= k
    decreases k
  {
    if v > 0 {
      CategoryAtMost(v / 2, k - 1);
    }
  }

  /** The bits that follow a category: `v` itself, or one less than it in the low bits. */
  function Magnitude(v: int): (bits: seq<bit>)
    ensures |bits| == Category(Abs(v))
  {
    var k := Category(Abs(v));
    Digits(2, k, if v >= 0 then v else MagnitudeLow(v))
  }

  function MagnitudeLow(v: int): nat
    requires v < 0
  {
    CategoryBounds(-v);
    v + Pow(2, Category(-v)) - 1
  }

  lemma ExtendMagnitude(v: int)
    ensures Extend(Category(Abs(v)), Value(2, Magnitude(v))) == v
  {
    hide Digits, Value, Pow, Category;
    var k := Category(Abs(v));
    var low := if v >= 0 then v else MagnitudeLow(v);
    ValueOfDigits(2, k, low);
    if v == 0 {
      CategoryNone();
      PowNone();
    } else {
      CategoryBounds(Abs(v));
      PowSucc(2, k - 1);
      SmallModulo(low, Pow(2, k));
    }
  }

  lemma CategoryNone()
    ensures Category(0) == 0
  {
  }

  lemma RawRead(bits: seq<bit>, rest: seq<bit>, ending: Ending)
    requires |bits| <= 25
    ensures Get(Stream(bits + rest, ending), |bits|, None) == (Ok(Value(2, bits)), Stream(rest, ending))
  {
    hide Value;
    if bits == [] {
      assert bits + rest == rest;
      ValueNone(2);
    } else {
      assert (bits + rest)[..|bits|] == bits && (bits + rest)[|bits|..] == rest;
    }
  }

  // ---------------------------------------------------------------------------------------
  // Symbols
  // ---------------------------------------------------------------------------------------

  datatype HuffTable = HuffTable(counts: seq<byte>, syms: seq<byte>) {
    /** A usable table of prefix codes. */
    ghost predicate Valid() {
      |counts| == MAX_LENGTH && Kraft(counts) && Table(counts, syms).Ok?
    }

    function Expanded(): (h: seq<nat>)
      requires Valid()
    {
      Table(counts, syms).value
    }

    ghost predicate Has(s: nat)
      requires Valid()
    {
      exists k: nat :: k < SumCounts(counts, MAX_LENGTH) && syms[k] == s
    }
  }

  /** The length of the `k`-th code. */
  function LengthOf(counts: seq<byte>, k: nat, l: nat): (len: nat)
    requires l <= |counts| && k < SumCounts(counts, l)
    ensures 1 <= len <= l && SumCounts(counts, len - 1) <= k < SumCounts(counts, len)
  {
    if SumCounts(counts, l - 1) <= k then l else LengthOf(counts, k, l - 1)
  }

  ghost function IndexOf(t: HuffTable, s: nat): (k: nat)
    requires t.Valid() && t.Has(s)
    ensures k < SumCounts(t.counts, MAX_LENGTH) && t.syms[k] == s
  {
    var k: nat :| k < SumCounts(t.counts, MAX_LENGTH) && t.syms[k] == s;
    k
  }

  ghost function SymbolBits(t: HuffTable, s: nat): (bits: seq<bit>)
    requires t.Valid() && t.Has(s)
  {
    var k := IndexOf(t, s);
    var len := LengthOf(t.counts, k, MAX_LENGTH);
    CodeBits(t.counts, len, k - SumCounts(t.counts, len - 1))
  }

  /** Every table that is built at all is one the decoder can use. */
  lemma BuiltIsTable(counts: seq<byte>, syms: seq<byte>)
    requires Table(counts, syms).Ok?
    ensures IsTable(Table(counts, syms).value)
  {
    hide Pow, Window, Entry;
    var m, h := MaxLength(counts, MAX_LENGTH), Table(counts, syms).value;
    forall y | 1 <= y < |h|
      ensures h[y] / 256 <= h[0]
    {
      WindowLength(counts, syms, m, y - 1);
    }
  }

  lemma TableIsTable(t: HuffTable)
    requires t.Valid()
    ensures IsTable(t.Expanded())
  {
    BuiltIsTable(t.counts, t.syms);
  }

  lemma WindowLength(counts: seq<byte>, syms: seq<byte>, m: nat, x: nat)
    requires |counts| == MAX_LENGTH && m <= MAX_LENGTH && forall k :: m <= k < |counts| ==> counts[k] == 0
    ensures Entry(Window(counts, m, x), syms) / 256 <= m
  {
    hide ReadCode, Digits;
    var bits := Digits(2, m, x);
    assert bits[..m] == bits;
    PrefixDecides(counts, bits, m);
  }

  /** A code is read back as its symbol, and only it is consumed, when the window it is looked
      up in is filled. At the end of the data that is needed: there, with fewer bits left than
      the table's longest code, no code is read. */
  lemma SymbolRead(t: HuffTable, s: nat, rest: seq<bit>, ending: Ending)
    requires t.Valid() && t.Has(s)
    ensures SymbolBits(t, s) != [] && IsTable(t.Expanded())
    ensures |SymbolBits(t, s) + rest| >= t.Expanded()[0]
            ==> Symbol(Stream(SymbolBits(t, s) + rest, ending), t.Expanded()) == (Ok(s), Stream(rest, ending))
    ensures ending == AtEnd && |SymbolBits(t, s) + rest| < t.Expanded()[0]
            ==> Symbol(Stream(SymbolBits(t, s) + rest, ending), t.Expanded())
                == (Ok(0), Stream(SymbolBits(t, s) + rest, ending))
  {
    hide Pow, Value, Digits, ReadCode, Kraft, Table, SumCounts, LengthOf, First, IsTable;
    var k := IndexOf(t, s);
    var len := LengthOf(t.counts, k, MAX_LENGTH);
    var rank := k - SumCounts(t.counts, len - 1);
    var code, h := SymbolBits(t, s), t.Expanded();
    TableIsTable(t);
    TableWidth(h);
    RankBelow(t.counts, len, k);
    CodeIsRead(t.counts, len, rank, rest);
    var bits := code + rest;
    assert |code| == len;
    if |bits| >= h[0] {
      DecodersAgree(t.counts, t.syms, bits);
      WindowOf(h, bits, ending, len, s);
      assert bits[len..] == rest;
    }
  }

  lemma TableWidth(h: seq<nat>)
    requires IsTable(h)
    ensures |h| > 0 && 1 <= h[0] <= MAX_LENGTH
  {
  }

  lemma WindowOf(h: seq<nat>, bits: seq<bit>, ending: Ending, len: nat, s: nat)
    requires IsTable(h) && h[0] <= |bits| && len <= h[0] && s < 256
    requires Value(2, bits[..h[0]]) < |h| - 1 && h[1 + Value(2, bits[..h[0]])] == 256 * len + s
    ensures Symbol(Stream(bits, ending), h) == (Ok(s), Stream(bits[len..], ending))
  {
    hide Pow, Value;
    var c := Peek(bits, h[0]);
    assert c == Value(2, bits[..h[0]]);
    assert h[1..][c] == 256 * len + s;
    SymbolEntry(len, s);
  }

  lemma SymbolEntry(len: nat, s: nat)
    requires s < 256
    ensures (256 * len + s) / 256 == len && (256 * len + s) % 256 == s
  {
  }

  // ---------------------------------------------------------------------------------------
  // Coding one block
  // ---------------------------------------------------------------------------------------

  const EOB: nat := 0x00
  const ZRL: nat := 0xF0

  /** A DC difference that has a code: a category of at most 15 bits, or the one of category 16. */
  ghost predicate DiffCodable(t: HuffTable, diff: int)
    requires t.Valid()
  {
    if diff == -32768 then t.Has(16) else Abs(diff) < 32768 && t.Has(Category(Abs(diff)))
  }

  ghost function CodeDiff(t: HuffTable, diff: int): seq<bit>
    requires t.Valid() && DiffCodable(t, diff)
  {
    if diff == -32768 then SymbolBits(t, 16) else SymbolBits(t, Category(Abs(diff))) + Magnitude(diff)
  }

  predicate AllZero(ac: seq<int>) {
    forall k :: 0 <= k < |ac| ==> ac[k] == 0
  }

  /** How many zeros come first. */
  function ZeroRun(ac: seq<int>): (r: nat)
    ensures r <= |ac| && (forall k :: 0 <= k < r ==> ac[k] == 0) && (r < |ac| ==> ac[r] != 0)
    ensures r == |ac| <==> AllZero(ac)
  {
    if ac == [] || ac[0] != 0 then 0 else 1 + ZeroRun(ac[1..])
  }

  function RunSymbol(ac: seq<int>): nat
    requires !AllZero(ac)
  {
    16 * ZeroRun(ac) + Category(Abs(ac[ZeroRun(ac)]))
  }

  /** The coefficients from some file position to the last have codes. */
  ghost predicate AcCodable(t: HuffTable, ac: seq<int>)
    requires t.Valid()
    decreases |ac|
  {
    if ac == [] then true
    else if AllZero(ac) then t.Has(EOB)
    else if ZeroRun(ac) > 15 then t.Has(ZRL) && AcCodable(t, ac[16..])
    else
      var r := ZeroRun(ac);
      Abs(ac[r]) < 32768 && t.Has(RunSymbol(ac)) && AcCodable(t, ac[r + 1..])
  }

  /** Zero runs and magnitudes; nothing after the last coefficient of a block that ends in one. */
  ghost function CodeAc(t: HuffTable, ac: seq<int>): seq<bit>
    requires t.Valid() && AcCodable(t, ac)
    decreases |ac|
  {
    if ac == [] then []
    else if AllZero(ac) then SymbolBits(t, EOB)
    else if ZeroRun(ac) > 15 then SymbolBits(t, ZRL) + CodeAc(t, ac[16..])
    else
      var r := ZeroRun(ac);
      SymbolBits(t, RunSymbol(ac)) + (Magnitude(ac[r]) + CodeAc(t, ac[r + 1..]))
  }

  lemma Category15(v: nat)
    requires v < 32768
    ensures Category(v) <= 15
  {
    hide Category;
    PowAdd(2, 8, 7);
    CategoryAtMost(v, 15);
  }

  /** At the end of the data a table read always succeeds, and reads nothing, as 0, once fewer
      bits are left than the window takes. */
  lemma SymbolAtEnd(h: seq<nat>, bits: seq<bit>)
    requires IsTable(h)
    ensures var (r, s) := Symbol(Stream(bits, AtEnd), h); r.Ok? && s.ending == AtEnd && |s.bits| <= |bits|
    ensures |bits| < h[0] ==> Symbol(Stream(bits, AtEnd), h) == (Ok(0), Stream(bits, AtEnd))
  {
    hide Pow;
    TableWidth(h);
    PeekBound(bits, h[0]);
    assert h[1..][Peek(bits, h[0])] == h[1 + Peek(bits, h[0])];
  }

  lemma GetAtEnd(bits: seq<bit>, n: nat)
    ensures var (r, s) := Get(Stream(bits, AtEnd), n, None); r.Ok? && s.ending == AtEnd && |s.bits| <= |bits|
  {
  }

  lemma {:induction false} DiffRead(t: HuffTable, diff: int, rest: seq<bit>)
    requires t.Valid() && DiffCodable(t, diff)
    ensures IsTable(t.Expanded())
    ensures |CodeDiff(t, diff) + rest| >= t.Expanded()[0]
            ==> ReadDiff(Stream(CodeDiff(t, diff) + rest, AtEnd), t.Expanded()) == Ok((diff, Stream(rest, AtEnd)))
  {
    hide Category, Magnitude, Extend, Symbol, Get, IsTable, HuffTable.Expanded, HuffTable.Valid;
    TableIsTable(t);
    if diff == -32768 {
      SymbolRead(t, 16, rest, AtEnd);
    } else {
      var k := Category(Abs(diff));
      Category15(Abs(diff));
      var code, bits := SymbolBits(t, k), Magnitude(diff);
      assert (code + bits) + rest == code + (bits + rest);
      SymbolRead(t, k, bits + rest, AtEnd);
      RawRead(bits, rest, AtEnd);
      ExtendMagnitude(diff);
    }
  }

  /** A difference always reads, as 0 if its window is not filled. */
  lemma DiffAtEnd(h: seq<nat>, bits: seq<bit>)
    requires IsTable(h)
    ensures var r := ReadDiff(Stream(bits, AtEnd), h); r.Ok? && r.value.1.ending == AtEnd && |r.value.1.bits| <= |bits|
    ensures |bits| < h[0] ==> ReadDiff(Stream(bits, AtEnd), h) == Ok((0, Stream(bits, AtEnd)))
  {
    hide Symbol, Get, Pow, IsTable;
    SymbolAtEnd(h, bits);
    var (cat, s1) := Symbol(Stream(bits, AtEnd), h);
    GetAtEnd(s1.bits, cat.value);
    NothingRead(bits);
    ExtendNone();
  }

  lemma NothingRead(bits: seq<bit>)
    ensures Get(Stream(bits, AtEnd), 0, None) == (Ok(0), Stream(bits, AtEnd))
  {
  }

  // ---------------------------------------------------------------------------------------
  // Where coefficients go
  // ---------------------------------------------------------------------------------------

  /** `cs` with the coefficients of file positions from `i` on dequantised into their places. */
  function Placed(cs: seq<int>, ac: seq<int>, quant: seq<nat>, i: nat): (r: seq<int>)
    requires |cs| == 64 == |quant| && i <= 64 && |ac| == 64 - i
    ensures |r| == 64
  {
    seq(64, n requires 0 <= n < 64 => if FileOrder(n) < i then cs[n] else ac[FileOrder(n) - i] * quant[FileOrder(n)])
  }

  /** Nothing but zeros where coefficients are still to come. */
  ghost predicate ZeroFrom(cs: seq<int>, i: nat)
    requires |cs| == 64
  {
    forall n :: 0 <= n < 64 && FileOrder(n) >= i ==> cs[n] == 0
  }

  lemma PlacedNone(cs: seq<int>, quant: seq<nat>)
    requires |cs| == 64 == |quant|
    ensures Placed(cs, [], quant, 64) == cs
  {
    hide FileOrder;
  }

  lemma PlacedZeros(cs: seq<int>, ac: seq<int>, quant: seq<nat>, i: nat)
    requires |cs| == 64 == |quant| && i <= 64 && |ac| == 64 - i && ZeroFrom(cs, i) && AllZero(ac)
    ensures Placed(cs, ac, quant, i) == cs
  {
    hide FileOrder;
  }

  /** Zeros, then one coefficient. */
  lemma PlacedRun(cs: seq<int>, ac: seq<int>, quant: seq<nat>, i: nat, r: nat)
    requires |cs| == 64 == |quant| && i <= 64 && |ac| == 64 - i && ZeroFrom(cs, i)
    requires r < |ac| && forall k :: 0 <= k < r ==> ac[k] == 0
    ensures var cs' := cs[Zigzag(i + r) := ac[r] * quant[i + r]];
            ZeroFrom(cs', i + r + 1) && Placed(cs', ac[r + 1..], quant, i + r + 1) == Placed(cs, ac, quant, i)
  {
    hide FileOrder, Zigzag;
    var cs' := cs[Zigzag(i + r) := ac[r] * quant[i + r]];
    forall n | 0 <= n < 64
      ensures FileOrder(n) >= i + r + 1 ==> cs'[n] == 0
      ensures Placed(cs', ac[r + 1..], quant, i + r + 1)[n] == Placed(cs, ac, quant, i)[n]
    {
      ZigzagInverse(i + r);
      FileOrderInverse(n);
      if FileOrder(n) >= i + r + 1 {
        assert ac[r + 1..][FileOrder(n) - (i + r + 1)] == ac[FileOrder(n) - i];
      }
    }
  }

  // ---------------------------------------------------------------------------------------
  // Reading one block back
  // ---------------------------------------------------------------------------------------

  lemma RunParts(r: nat, k: nat)
    requires r <= 15 && k <= 15
    ensures (16 * r + k) / 16 == r && (16 * r + k) % 16 == k
  {
  }

  /** One step of the AC loop on what a run and a magnitude are coded as. */
  lemma AcStep(h: seq<nat>, s: Stream, s1: Stream, s2: Stream, quant: seq<nat>, i: nat, cs: seq<int>, r: nat, k: nat, d: nat)
    requires IsTable(h) && |quant| == 64 == |cs| && r <= 15 && k <= 15 && i + r < 64 && (k > 0 || r == 15)
    requires Symbol(s, h) == (Ok(16 * r + k), s1) && Get(s1, k, None) == (Ok(d), s2)
    ensures ReadAc(s, h, quant, i, cs) == ReadAc(s2, h, quant, i + r + 1, cs[Zigzag(i + r) := Extend(k, d) * quant[i + r]])
  {
    hide Symbol, Get, Extend, Zigzag, IsTable;
    RunParts(r, k);
  }

  /** How many coefficients the first symbol takes. */
  function Taken(ac: seq<int>): (n: nat)
    requires !AllZero(ac)
    ensures 1 <= n <= |ac|
  {
    if ZeroRun(ac) > 15 then 16 else ZeroRun(ac) + 1
  }

  lemma CodeTail(t: HuffTable, ac: seq<int>)
    requires t.Valid() && AcCodable(t, ac) && !AllZero(ac)
    ensures AcCodable(t, ac[Taken(ac)..])
  {
    hide Category, HuffTable.Valid;
  }

  lemma CodeZeros(t: HuffTable, ac: seq<int>)
    requires t.Valid() && AcCodable(t, ac) && AllZero(ac)
    ensures if ac == [] then CodeAc(t, ac) == [] else t.Has(EOB) && CodeAc(t, ac) == SymbolBits(t, EOB)
  {
    hide HuffTable.Valid, SymbolBits;
  }

  /** Every symbol of these coefficients but an end of block is read with its window filled,
      when `more` bits follow their code. */
  ghost predicate AcFilled(t: HuffTable, ac: seq<int>, more: nat)
    requires t.Valid() && AcCodable(t, ac)
    decreases |ac|
  {
    ac == [] || AllZero(ac)
    || (CodeTail(t, ac);
        |CodeAc(t, ac)| + more >= t.Expanded()[0] && AcFilled(t, ac[Taken(ac)..], more))
  }

  /** The coefficients are closed by an end of block. */
  predicate EndsInZero(ac: seq<int>) {
    ac != [] && ac[|ac| - 1] == 0
  }

  lemma EndsInZeroTail(ac: seq<int>)
    ensures !AllZero(ac) ==> (EndsInZero(ac) <==> EndsInZero(ac[Taken(ac)..]))
    ensures AllZero(ac) && ac != [] ==> EndsInZero(ac)
  {
    if !AllZero(ac) {
      var n := Taken(ac);
      if n < |ac| {
        assert ac[n..][|ac| - n - 1] == ac[|ac| - 1];
      }
    }
  }

  /** So is that end of block. */
  ghost predicate EndFilled(t: HuffTable, ac: seq<int>, more: nat)
    requires t.Valid() && AcCodable(t, ac)
  {
    EndsInZero(ac) ==> (EndCoded(t, ac); |SymbolBits(t, EOB)| + more >= t.Expanded()[0])
  }

  lemma {:induction false} EndCoded(t: HuffTable, ac: seq<int>)
    requires t.Valid() && AcCodable(t, ac) && EndsInZero(ac)
    ensures t.Has(EOB)
    decreases |ac|
  {
    hide HuffTable.Valid, HuffTable.Has, Category;
    EndsInZeroTail(ac);
    if !AllZero(ac) {
      CodeTail(t, ac);
      EndCoded(t, ac[Taken(ac)..]);
    }
  }

  /** What is left after the coefficients: an end of block that is not read is not consumed. */
  ghost function AcLeft(t: HuffTable, ac: seq<int>, rest: seq<bit>): seq<bit>
    requires t.Valid() && AcCodable(t, ac)
  {
    if EndFilled(t, ac, |rest|) then rest else EndCoded(t, ac); SymbolBits(t, EOB) + rest
  }

  /** What holds of the coefficients from the first symbol on holds of those after it. */
  lemma AcFirst(t: HuffTable, ac: seq<int>, rest: seq<bit>)
    requires t.Valid() && AcCodable(t, ac) && !AllZero(ac)
    ensures var n := Taken(ac);
            && AcCodable(t, ac[n..]) && (forall k :: 0 <= k < n - 1 ==> ac[k] == 0)
            && (AcFilled(t, ac, |rest|) <==> |CodeAc(t, ac)| + |rest| >= t.Expanded()[0] && AcFilled(t, ac[n..], |rest|))
            && AcLeft(t, ac, rest) == AcLeft(t, ac[n..], rest)
  {
    hide HuffTable.Valid, HuffTable.Expanded, SymbolBits, CodeAc, AcCodable;
    CodeTail(t, ac);
    EndsInZeroTail(ac);
    assert ac != [];
  }

  /** The end of block, read or not. */
  lemma AcEndRead(t: HuffTable, ac: seq<int>, rest: seq<bit>)
    requires t.Valid() && AcCodable(t, ac) && AllZero(ac) && ac != [] && IsTable(t.Expanded())
    ensures Symbol(Stream(CodeAc(t, ac) + rest, AtEnd), t.Expanded()) == (Ok(EOB), Stream(AcLeft(t, ac, rest), AtEnd))
  {
    hide HuffTable.Valid, HuffTable.Expanded, SymbolBits, CodeAc, AcCodable, Symbol, IsTable;
    CodeZeros(t, ac);
    EndsInZeroTail(ac);
    SymbolRead(t, EOB, rest, AtEnd);
  }

  lemma AcNone(t: HuffTable, rest: seq<bit>)
    requires t.Valid() && AcCodable(t, [])
    ensures CodeAc(t, []) + rest == rest && AcLeft(t, [], rest) == rest
  {
    hide HuffTable.Valid, HuffTable.Expanded;
  }

  lemma {:induction false} AcRead(t: HuffTable, ac: seq<int>, quant: seq<nat>, i: nat, cs: seq<int>, rest: seq<bit>)
    requires t.Valid() && AcCodable(t, ac) && AcFilled(t, ac, |rest|)
    requires |cs| == 64 == |quant| && 1 <= i <= 64 && |ac| == 64 - i && ZeroFrom(cs, i)
    ensures IsTable(t.Expanded())
    ensures ReadAc(Stream(CodeAc(t, ac) + rest, AtEnd), t.Expanded(), quant, i, cs)
            == Ok((Placed(cs, ac, quant, i), Stream(AcLeft(t, ac, rest), AtEnd)))
    decreases |ac|
  {
    hide Symbol, IsTable, HuffTable.Expanded, HuffTable.Valid, Placed, ZeroFrom, Zigzag, ReadAc, SymbolBits, CodeAc, AcCodable, AcFilled, AcLeft,
      AllZero, Taken;
    TableIsTable(t);
    var h, s := t.Expanded(), Stream(CodeAc(t, ac) + rest, AtEnd);
    if ac == [] {
      AcNone(t, rest);
      PlacedNone(cs, quant);
      AcEnds(h, s, quant, cs);
    } else if AllZero(ac) {
      AcEndRead(t, ac, rest);
      PlacedZeros(cs, ac, quant, i);
      AcStops(h, s, Stream(AcLeft(t, ac, rest), AtEnd), quant, i, cs);
    } else {
      var n := Taken(ac);
      AcFirst(t, ac, rest);
      AcReadFirst(t, ac, quant, i, cs, rest);
      PlacedRun(cs, ac, quant, i, n - 1);
      AcRead(t, ac[n..], quant, i + n, cs[Zigzag(i + n - 1) := ac[n - 1] * quant[i + n - 1]], rest);
    }
  }

  /** The first symbol that is not an end of block. */
  lemma AcReadFirst(t: HuffTable, ac: seq<int>, quant: seq<nat>, i: nat, cs: seq<int>, rest: seq<bit>)
    requires t.Valid() && AcCodable(t, ac) && !AllZero(ac) && |CodeAc(t, ac)| + |rest| >= t.Expanded()[0]
    requires |cs| == 64 == |quant| && 1 <= i <= 64 && |ac| == 64 - i
    ensures IsTable(t.Expanded()) && AcCodable(t, ac[Taken(ac)..])
    ensures var n := Taken(ac);
            ReadAc(Stream(CodeAc(t, ac) + rest, AtEnd), t.Expanded(), quant, i, cs)
            == ReadAc(Stream(CodeAc(t, ac[n..]) + rest, AtEnd), t.Expanded(), quant, i + n,
                      cs[Zigzag(i + n - 1) := ac[n - 1] * quant[i + n - 1]])
  {
    hide ReadAc, CodeAc, AcCodable, HuffTable.Expanded, HuffTable.Valid, IsTable, Zigzag;
    CodeTail(t, ac);
    if ZeroRun(ac) > 15 {
      AcReadZeros(t, ac, quant, i, cs, rest);
    } else {
      AcReadRun(t, ac, quant, i, cs, rest);
    }
  }

  lemma ExtendNone()
    ensures Extend(0, 0) == 0
  {
  }

  lemma AcEnds(h: seq<nat>, s: Stream, quant: seq<nat>, cs: seq<int>)
    requires IsTable(h) && |quant| == 64 == |cs|
    ensures ReadAc(s, h, quant, 64, cs) == Ok((cs, s))
  {
    hide IsTable, Symbol;
  }

  lemma AcStops(h: seq<nat>, s: Stream, s1: Stream, quant: seq<nat>, i: nat, cs: seq<int>)
    requires IsTable(h) && |quant| == 64 == |cs| && i < 64 && Symbol(s, h) == (Ok(EOB), s1)
    ensures ReadAc(s, h, quant, i, cs) == Ok((cs, s1))
  {
    hide IsTable, Symbol;
  }

  lemma ZerosCode(t: HuffTable, ac: seq<int>)
    requires t.Valid() && AcCodable(t, ac) && !AllZero(ac) && ZeroRun(ac) > 15
    ensures t.Has(ZRL) && AcCodable(t, ac[16..]) && CodeAc(t, ac) == SymbolBits(t, ZRL) + CodeAc(t, ac[16..])
    ensures ac[15] == 0
  {
    hide HuffTable.Valid, SymbolBits, RunSymbol;
  }

  /** Sixteen zeros. */
  lemma AcReadZeros(t: HuffTable, ac: seq<int>, quant: seq<nat>, i: nat, cs: seq<int>, rest: seq<bit>)
    requires t.Valid() && AcCodable(t, ac) && |CodeAc(t, ac)| + |rest| >= t.Expanded()[0]
    requires |cs| == 64 == |quant| && 1 <= i <= 64 && |ac| == 64 - i && !AllZero(ac) && ZeroRun(ac) > 15
    ensures IsTable(t.Expanded())
    ensures ReadAc(Stream(CodeAc(t, ac) + rest, AtEnd), t.Expanded(), quant, i, cs)
            == ReadAc(Stream(CodeAc(t, ac[16..]) + rest, AtEnd), t.Expanded(), quant, i + 16,
                      cs[Zigzag(i + 15) := ac[15] * quant[i + 15]])
  {
    hide Extend, Symbol, Get, IsTable, HuffTable.Expanded, HuffTable.Valid, Zigzag, ReadAc, SymbolBits, IndexOf, ZeroRun, CodeAc, AcCodable;
    TableIsTable(t);
    ZerosCode(t, ac);
    var more := CodeAc(t, ac[16..]);
    var s, s1 := Stream(CodeAc(t, ac) + rest, AtEnd), Stream(more + rest, AtEnd);
    assert (SymbolBits(t, ZRL) + more) + rest == SymbolBits(t, ZRL) + (more + rest);
    SymbolRead(t, ZRL, more + rest, AtEnd);
    assert [] + (more + rest) == more + rest;
    RawRead([], more + rest, AtEnd);
    ValueNone(2);
    AcStep(t.Expanded(), s, s1, s1, quant, i, cs, 15, 0, 0);
    ExtendNone();
  }

  /** A run of at most 15 zeros and its coefficient. */
  lemma AcReadRun(t: HuffTable, ac: seq<int>, quant: seq<nat>, i: nat, cs: seq<int>, rest: seq<bit>)
    requires t.Valid() && AcCodable(t, ac) && |CodeAc(t, ac)| + |rest| >= t.Expanded()[0]
    requires |cs| == 64 == |quant| && 1 <= i <= 64 && |ac| == 64 - i && !AllZero(ac) && ZeroRun(ac) <= 15
    ensures IsTable(t.Expanded())
    ensures var r := ZeroRun(ac);
            ReadAc(Stream(CodeAc(t, ac) + rest, AtEnd), t.Expanded(), quant, i, cs)
            == ReadAc(Stream(CodeAc(t, ac[r + 1..]) + rest, AtEnd), t.Expanded(), quant, i + r + 1,
                      cs[Zigzag(i + r) := ac[r] * quant[i + r]])
  {
    hide Category, Magnitude, Extend, Symbol, Get, IsTable, HuffTable.Expanded, HuffTable.Valid, Zigzag, ReadAc,
      SymbolBits, IndexOf, ZeroRun;
    TableIsTable(t);
    var r := ZeroRun(ac);
    var k, bits, more := Category(Abs(ac[r])), Magnitude(ac[r]), CodeAc(t, ac[r + 1..]);
    Category15(Abs(ac[r]));
    CategoryBounds(Abs(ac[r]));
    var code := SymbolBits(t, RunSymbol(ac));
    assert (code + (bits + more)) + rest == code + (bits + (more + rest));
    SymbolRead(t, RunSymbol(ac), bits + (more + rest), AtEnd);
    RawRead(bits, more + rest, AtEnd);
    ExtendMagnitude(ac[r]);
    AcStep(t.Expanded(), Stream(CodeAc(t, ac) + rest, AtEnd), Stream(bits + (more + rest), AtEnd), Stream(more + rest, AtEnd),
           quant, i, cs, r, k, Value(2, bits));
  }

  /** An AC run always reads; with the window not filled it ends the block. */
  lemma {:induction false} AcAtEnd(h: seq<nat>, bits: seq<bit>, quant: seq<nat>, i: nat, cs: seq<int>)
    requires IsTable(h) && |quant| == 64 == |cs|
    ensures var r := ReadAc(Stream(bits, AtEnd), h, quant, i, cs);
            r.Ok? && |r.value.0| == 64 && r.value.1.ending == AtEnd && |r.value.1.bits| <= |bits|
    ensures |bits| < h[0] && i < 64 ==> ReadAc(Stream(bits, AtEnd), h, quant, i, cs) == Ok((cs, Stream(bits, AtEnd)))
    decreases 64 - i
  {
    hide Symbol, Get, Pow, IsTable, Zigzag, Extend;
    if i < 64 {
      SymbolAtEnd(h, bits);
      var (sym, s1) := Symbol(Stream(bits, AtEnd), h);
      var at, len := i + sym.value / 16, sym.value % 16;
      if !(len == 0 && sym.value / 16 < 15) {
        GetAtEnd(s1.bits, len);
        var (d, s2) := Get(s1, len, None);
        AcAtEnd(h, s2.bits, quant, at + 1, if at < 64 then cs[Zigzag(at) := Extend(len, d.value) * quant[at]] else cs);
      }
    }
  }

  lemma NothingMissed(t: HuffTable, ac: seq<int>, more: nat)
    requires t.Valid() && AcCodable(t, ac) && AllZero(ac)
    ensures AcFilled(t, ac, more)
  {
    hide HuffTable.Valid, HuffTable.Expanded, CodeAc;
  }

  /** Where an AC symbol is not read, its coefficient is lost. */
  lemma {:induction false} AcLost(t: HuffTable, ac: seq<int>, quant: seq<nat>, i: nat, cs: seq<int>, rest: seq<bit>)
    requires t.Valid() && AcCodable(t, ac) && !AcFilled(t, ac, |rest|) && IsTable(t.Expanded())
    requires |cs| == 64 == |quant| && 1 <= i <= 64 && |ac| == 64 - i && ZeroFrom(cs, i)
    requires forall k :: 0 <= k < 64 ==> quant[k] > 0
    ensures var r := ReadAc(Stream(CodeAc(t, ac) + rest, AtEnd), t.Expanded(), quant, i, cs);
            r.Ok? && r.value.0 != Placed(cs, ac, quant, i)
    decreases |ac|
  {
    hide Symbol, IsTable, HuffTable.Expanded, HuffTable.Valid, Placed, ZeroFrom, Zigzag, ReadAc, SymbolBits, CodeAc, AcCodable, AcFilled, AllZero, Taken;
    if AllZero(ac) {
      NothingMissed(t, ac, |rest|);
    }
    var n := Taken(ac);
    AcFirst(t, ac, rest);
    TableWidth(t.Expanded());
    if |CodeAc(t, ac)| + |rest| < t.Expanded()[0] {
      AcAtEnd(t.Expanded(), CodeAc(t, ac) + rest, quant, i, cs);
      NotPlaced(cs, ac, quant, i);
    } else {
      AcReadFirst(t, ac, quant, i, cs, rest);
      PlacedRun(cs, ac, quant, i, n - 1);
      AcLost(t, ac[n..], quant, i + n, cs[Zigzag(i + n - 1) := ac[n - 1] * quant[i + n - 1]], rest);
    }
  }

  lemma NotPlaced(cs: seq<int>, ac: seq<int>, quant: seq<nat>, i: nat)
    requires |cs| == 64 == |quant| && 1 <= i <= 64 && |ac| == 64 - i && ZeroFrom(cs, i)
    requires forall k :: 0 <= k < 64 ==> quant[k] > 0
    ensures Placed(cs, ac, quant, i) == cs <==> AllZero(ac)
  {
    hide Zigzag, FileOrder;
    if AllZero(ac) {
      PlacedZeros(cs, ac, quant, i);
    } else {
      var r := ZeroRun(ac);
      var n := Zigzag(i + r);
      ZigzagInverse(i + r);
      ProductNotZero(ac[r], quant[i + r]);
      assert Placed(cs, ac, quant, i)[n] == ac[r] * quant[i + r];
      assert cs[n] == 0;
    }
  }

  lemma ProductNotZero(a: int, b: nat)
    requires a != 0 && b > 0
    ensures a * b != 0
  {
  }

  // ---------------------------------------------------------------------------------------
  // The whole scan
  // ---------------------------------------------------------------------------------------

  /** A quantised block: the DC difference and the 63 AC coefficients in zigzag order. */
  datatype Block = Block(diff: int, ac: seq<int>)

  ghost predicate BlocksCodable(dc: HuffTable, ac: HuffTable, blocks: seq<Block>)
    requires dc.Valid() && ac.Valid()
  {
    forall k :: 0 <= k < |blocks| ==>
      |blocks[k].ac| == 63 && DiffCodable(dc, blocks[k].diff) && AcCodable(ac, blocks[k].ac)
  }

  ghost function CodeBlocks(dc: HuffTable, ac: HuffTable, blocks: seq<Block>): seq<bit>
    requires dc.Valid() && ac.Valid() && BlocksCodable(dc, ac, blocks)
  {
    if blocks == [] then []
    else CodeDiff(dc, blocks[0].diff) + (CodeAc(ac, blocks[0].ac) + CodeBlocks(dc, ac, blocks[1..]))
  }

  function DiffSum(blocks: seq<Block>): int {
    if blocks == [] then 0 else DiffSum(blocks[..|blocks| - 1]) + blocks[|blocks| - 1].diff
  }

  lemma {:induction false} DiffSumFirst(blocks: seq<Block>)
    requires blocks != []
    ensures DiffSum(blocks) == blocks[0].diff + DiffSum(blocks[1..])
  {
    var n := |blocks| - 1;
    if n > 0 {
      DiffSumFirst(blocks[..n]);
      assert blocks[..n][1..] == blocks[1..][..n - 1];
    } else {
      assert blocks[..0] == [] && blocks[1..] == [];
    }
  }

  /** The predictor after the first `k` blocks. */
  function VpredAt(blocks: seq<Block>, k: nat, q0: nat, vpred: int): int
    requires k <= |blocks|
  {
    Wrap32(vpred + DiffSum(blocks[..k]) * q0)
  }

  lemma WrapWrap(x: int, y: int)
    ensures Wrap32(Wrap32(x) + y) == Wrap32(x + y)
  {
  }

  lemma VpredNext(blocks: seq<Block>, k: nat, q0: nat, vpred: int)
    requires 1 <= k <= |blocks|
    ensures VpredAt(blocks[1..], k - 1, q0, Wrap32(vpred + blocks[0].diff * q0)) == VpredAt(blocks, k, q0, vpred)
  {
    hide Wrap32;
    assert blocks[..k][1..] == blocks[1..][..k - 1];
    DiffSumFirst(blocks[..k]);
    var d, rest := blocks[0].diff, DiffSum(blocks[1..][..k - 1]);
    WrapWrap(vpred + d * q0, rest * q0);
    Factor(d, rest, q0);
  }

  lemma Factor(a: int, b: int, c: int)
    ensures (a + b) * c == a * c + b * c
  {
  }

  /** The first `n` blocks as the decoder is to return them: the predictor chain, and every
      coefficient times its quantiser in its natural place. */
  ghost predicate Recovered(blocks: seq<Block>, quant: seq<nat>, vpred: int, vpreds: seq<int>, coeffs: seq<seq<int>>, n: nat)
    requires |quant| == 64 && n <= |blocks| && forall k :: 0 <= k < |blocks| ==> |blocks[k].ac| == 63
  {
    && |vpreds| == |coeffs| == |blocks|
    && forall k :: 0 <= k < n ==>
         && vpreds[k] == VpredAt(blocks, k + 1, quant[0], vpred)
         && coeffs[k] == Placed(Blank(vpreds[k]), blocks[k].ac, quant, 1)
  }

  lemma RecoveredStep(blocks: seq<Block>, quant: seq<nat>, vpred: int, v: int, c: seq<int>, vpreds: seq<int>, coeffs: seq<seq<int>>, n: nat)
    requires |quant| == 64 && 1 <= n <= |blocks| && forall k :: 0 <= k < |blocks| ==> |blocks[k].ac| == 63
    requires |vpreds| == |coeffs| == |blocks| - 1
    ensures var v' := Wrap32(vpred + blocks[0].diff * quant[0]);
            Recovered(blocks, quant, vpred, [v] + vpreds, [c] + coeffs, n)
            <==> v == v' && c == Placed(Blank(v), blocks[0].ac, quant, 1) && Recovered(blocks[1..], quant, v', vpreds, coeffs, n - 1)
  {
    hide VpredAt, Placed, Blank, Wrap32;
    var q0, v', vs, cs := quant[0], Wrap32(vpred + blocks[0].diff * quant[0]), [v] + vpreds, [c] + coeffs;
    VpredFirst(blocks, q0, vpred);
    forall k | 1 <= k < n
      ensures vs[k] == vpreds[k - 1] && cs[k] == coeffs[k - 1] && blocks[k] == blocks[1..][k - 1]
      ensures VpredAt(blocks, k + 1, q0, vpred) == VpredAt(blocks[1..], k, q0, v')
    {
      VpredNext(blocks, k + 1, q0, vpred);
    }
    if Recovered(blocks, quant, vpred, vs, cs, n) {
      assert v == vs[0] && c == cs[0];
      forall k | 0 <= k < n - 1
        ensures vpreds[k] == VpredAt(blocks[1..], k + 1, q0, v') && coeffs[k] == Placed(Blank(vpreds[k]), blocks[1..][k].ac, quant, 1)
      {
        assert vs[k + 1] == VpredAt(blocks, k + 2, q0, vpred);
      }
    }
  }

  lemma BlankZero(vpred: int)
    ensures ZeroFrom(Blank(vpred), 1)
  {
    assert FileOrder(0) == 0;
  }

  // ---------------------------------------------------------------------------------------
  // Reads near the end of the data
  // ---------------------------------------------------------------------------------------

  /** The reads of the first `n` blocks have their windows filled, when `more` bits follow all
      the code; an end of block that closes the last of them need not. */
  ghost predicate FilledFor(dc: HuffTable, ac: HuffTable, blocks: seq<Block>, n: nat, more: nat)
    requires dc.Valid() && ac.Valid() && BlocksCodable(dc, ac, blocks) && n <= |blocks|
    decreases n
  {
    n == 0
    || (var b, after := blocks[0], |CodeBlocks(dc, ac, blocks[1..])| + more;
        && |CodeDiff(dc, b.diff)| + |CodeAc(ac, b.ac)| + after >= dc.Expanded()[0]
        && AcFilled(ac, b.ac, after) && (n > 1 ==> EndFilled(ac, b.ac, after))
        && FilledFor(dc, ac, blocks[1..], n - 1, more))
  }

  /** On data without a marker decoding never fails. */
  lemma {:induction false} BlocksAtEnd(hDc: seq<nat>, hAc: seq<nat>, bits: seq<bit>, quant: seq<nat>, n: nat, vpred: int)
    requires IsTable(hDc) && IsTable(hAc) && |quant| == 64
    ensures var r := ReadBlocks(Stream(bits, AtEnd), hDc, hAc, quant, n, vpred); r.Ok? && |r.value.0| == |r.value.1| == n
    decreases n
  {
    hide ReadDiff, ReadAc, Wrap32, IsTable, Blank;
    if n > 0 {
      DiffAtEnd(hDc, bits);
      var (d, s1) := ReadDiff(Stream(bits, AtEnd), hDc).value;
      var v := Wrap32(vpred + d * quant[0]);
      AcAtEnd(hAc, s1.bits, quant, 1, Blank(v));
      BlocksAtEnd(hDc, hAc, ReadAc(s1, hAc, quant, 1, Blank(v)).value.1.bits, quant, n - 1, v);
    }
  }

  /** One block, then the rest. */
  lemma BlocksFirst(hDc: seq<nat>, hAc: seq<nat>, bits: seq<bit>, quant: seq<nat>, n: nat, vpred: int, diff: int, left: seq<bit>)
    requires IsTable(hDc) && IsTable(hAc) && |quant| == 64 && n > 0
    requires ReadDiff(Stream(bits, AtEnd), hDc) == Ok((diff, Stream(left, AtEnd)))
    ensures var v := Wrap32(vpred + diff * quant[0]);
            var ac := ReadAc(Stream(left, AtEnd), hAc, quant, 1, Blank(v));
            && ac.Ok? && ac.value.1.ending == AtEnd
            && var rest := ReadBlocks(ac.value.1, hDc, hAc, quant, n - 1, v);
               && rest.Ok? && |rest.value.0| == |rest.value.1| == n - 1
               && ReadBlocks(Stream(bits, AtEnd), hDc, hAc, quant, n, vpred) == Ok(([v] + rest.value.0, [ac.value.0] + rest.value.1))
  {
    hide ReadDiff, ReadAc, Wrap32, IsTable, Blank;
    var v := Wrap32(vpred + diff * quant[0]);
    AcAtEnd(hAc, left, quant, 1, Blank(v));
    BlocksAtEnd(hDc, hAc, ReadAc(Stream(left, AtEnd), hAc, quant, 1, Blank(v)).value.1.bits, quant, n - 1, v);
  }

  lemma FirstCode(dc: HuffTable, ac: HuffTable, blocks: seq<Block>, tail: seq<bit>)
    requires dc.Valid() && ac.Valid() && BlocksCodable(dc, ac, blocks) && blocks != []
    ensures CodeBlocks(dc, ac, blocks) + tail
            == CodeDiff(dc, blocks[0].diff) + (CodeAc(ac, blocks[0].ac) + (CodeBlocks(dc, ac, blocks[1..]) + tail))
  {
    hide CodeDiff, CodeAc, HuffTable.Valid, DiffCodable, AcCodable;
  }

  lemma {:induction false} BlocksRead(dc: HuffTable, ac: HuffTable, blocks: seq<Block>, quant: seq<nat>, vpred: int, tail: seq<bit>, n: nat)
    requires dc.Valid() && ac.Valid() && BlocksCodable(dc, ac, blocks) && |quant| == 64 && n <= |blocks|
    requires FilledFor(dc, ac, blocks, n, |tail|)
    ensures IsTable(dc.Expanded()) && IsTable(ac.Expanded())
    ensures var r := ReadBlocks(Stream(CodeBlocks(dc, ac, blocks) + tail, AtEnd), dc.Expanded(), ac.Expanded(), quant, |blocks|, vpred);
            r.Ok? && Recovered(blocks, quant, vpred, r.value.0, r.value.1, n)
    decreases n
  {
    hide CodeDiff, CodeAc, HuffTable.Expanded, HuffTable.Valid, IsTable, DiffCodable, AcCodable, AcFilled, EndFilled, Wrap32, ReadBlocks,
      ReadDiff, ReadAc, Placed, VpredAt, Blank, CodeBlocks, Recovered;
    TableIsTable(dc);
    TableIsTable(ac);
    var hDc, hAc := dc.Expanded(), ac.Expanded();
    if n == 0 {
      BlocksAtEnd(hDc, hAc, CodeBlocks(dc, ac, blocks) + tail, quant, |blocks|, vpred);
      NoneRecovered(blocks, quant, vpred, ReadBlocks(Stream(CodeBlocks(dc, ac, blocks) + tail, AtEnd), hDc, hAc, quant, |blocks|, vpred).value);
    } else {
      var b, more := blocks[0], CodeBlocks(dc, ac, blocks[1..]) + tail;
      var v := Wrap32(vpred + b.diff * quant[0]);
      FirstCode(dc, ac, blocks, tail);
      DiffRead(dc, b.diff, CodeAc(ac, b.ac) + more);
      BlankZero(v);
      AcRead(ac, b.ac, quant, 1, Blank(v), more);
      BlocksFirst(hDc, hAc, CodeBlocks(dc, ac, blocks) + tail, quant, |blocks|, vpred, b.diff, CodeAc(ac, b.ac) + more);
      var rest := ReadBlocks(Stream(AcLeft(ac, b.ac, more), AtEnd), hDc, hAc, quant, |blocks| - 1, v).value;
      if n > 1 {
        BlocksRead(dc, ac, blocks[1..], quant, v, tail, n - 1);
      } else {
        NoneRecovered(blocks[1..], quant, v, rest);
      }
      RecoveredStep(blocks, quant, vpred, v, Placed(Blank(v), b.ac, quant, 1), rest.0, rest.1, n);
    }
  }

  lemma NoneRecovered(blocks: seq<Block>, quant: seq<nat>, vpred: int, r: (seq<int>, seq<seq<int>>))
    requires |quant| == 64 && |r.0| == |r.1| == |blocks| && forall k :: 0 <= k < |blocks| ==> |blocks[k].ac| == 63
    ensures Recovered(blocks, quant, vpred, r.0, r.1, 0)
  {
  }

  lemma VpredFirst(blocks: seq<Block>, q0: nat, vpred: int)
    requires blocks != []
    ensures VpredAt(blocks, 1, q0, vpred) == Wrap32(vpred + blocks[0].diff * q0)
  {
    hide Wrap32;
    var one := blocks[..1];
    assert one[..|one| - 1] == [] && one[|one| - 1] == blocks[0];
    assert DiffSum(one) == blocks[0].diff;
  }

  /** Blocks coded with prefix-valid tables, filled to whole bytes by any bits and stuffed: as
      many blocks come back as have their reads filled, with the predictor chain and exactly the
      dequantised coefficients. */
  lemma ScanDecodesCoding(dc: HuffTable, ac: HuffTable, blocks: seq<Block>, quant: seq<nat>, tail: seq<bit>, n: nat)
    requires dc.Valid() && ac.Valid() && BlocksCodable(dc, ac, blocks) && |quant| == 64 && n <= |blocks|
    requires |CodeBlocks(dc, ac, blocks) + tail| % 8 == 0 && FilledFor(dc, ac, blocks, n, |tail|)
    ensures IsTable(dc.Expanded()) && IsTable(ac.Expanded())
    ensures var r := Decoded(Stuff(Pack(CodeBlocks(dc, ac, blocks) + tail)), dc.Expanded(), ac.Expanded(), quant, |blocks|);
            && r.Ok? && |r.value.0| == |r.value.1| == |blocks|
            && (forall k :: 0 <= k < n ==>
                  && r.value.0[k] == Wrap32(16384 + DiffSum(blocks[..k + 1]) * quant[0])
                  && |r.value.1[k]| == 64 && r.value.1[k][0] == r.value.0[k])
            && forall k, i :: 0 <= k < n && 1 <= i < 64 ==> r.value.1[k][Zigzag(i)] == blocks[k].ac[i - 1] * quant[i]
  {
    hide HuffTable.Expanded, HuffTable.Valid, IsTable, DiffCodable, AcCodable, Wrap32, ReadBlocks, CodeBlocks, Pack, Stuff, Unstuff, ByteBits, EndingOf,
      DiffSum, Placed, FilledFor;
    TableIsTable(dc);
    TableIsTable(ac);
    DecodedBits(dc, ac, blocks, quant, tail);
    BlocksRead(dc, ac, blocks, quant, VPRED0, tail, n);
    var r := ReadBlocks(Stream(CodeBlocks(dc, ac, blocks) + tail, AtEnd), dc.Expanded(), ac.Expanded(), quant, |blocks|, VPRED0);
    forall k | 0 <= k < n
      ensures r.value.1[k][0] == r.value.0[k]
      ensures forall i :: 1 <= i < 64 ==> r.value.1[k][Zigzag(i)] == blocks[k].ac[i - 1] * quant[i]
    {
      forall i | 1 <= i < 64
        ensures r.value.1[k][Zigzag(i)] == blocks[k].ac[i - 1] * quant[i]
      {
        PlacedAt(r.value.0[k], blocks[k].ac, quant, i);
      }
      PlacedAt(r.value.0[k], blocks[k].ac, quant, 1);
    }
  }

  lemma DecodedBits(dc: HuffTable, ac: HuffTable, blocks: seq<Block>, quant: seq<nat>, tail: seq<bit>)
    requires dc.Valid() && ac.Valid() && BlocksCodable(dc, ac, blocks) && |quant| == 64
    requires |CodeBlocks(dc, ac, blocks) + tail| % 8 == 0
    ensures IsTable(dc.Expanded()) && IsTable(ac.Expanded())
    ensures Decoded(Stuff(Pack(CodeBlocks(dc, ac, blocks) + tail)), dc.Expanded(), ac.Expanded(), quant, |blocks|)
            == ReadBlocks(Stream(CodeBlocks(dc, ac, blocks) + tail, AtEnd), dc.Expanded(), ac.Expanded(), quant, |blocks|, VPRED0)
  {
    hide HuffTable.Expanded, HuffTable.Valid, IsTable, BlocksCodable, ReadBlocks, CodeBlocks, Pack, Stuff, Unstuff, ByteBits, EndingOf;
    var bits := CodeBlocks(dc, ac, blocks) + tail;
    TableIsTable(dc);
    TableIsTable(ac);
    UnstuffStuff(Pack(bits));
    ByteBitsPack(bits);
  }

  /** All reads of the first `n` blocks are filled if what follows them, less one bit, fills both
      tables' windows. */
  lemma {:induction false} FarFromEnd(dc: HuffTable, ac: HuffTable, blocks: seq<Block>, n: nat, more: nat)
    requires dc.Valid() && ac.Valid() && BlocksCodable(dc, ac, blocks) && n <= |blocks|
    requires BlocksCodable(dc, ac, blocks[n..])
    requires |CodeBlocks(dc, ac, blocks[n..])| + more + 1 >= dc.Expanded()[0] && |CodeBlocks(dc, ac, blocks[n..])| + more + 1 >= ac.Expanded()[0]
    ensures FilledFor(dc, ac, blocks, n, more)
    decreases n
  {
    hide CodeDiff, CodeAc, HuffTable.Expanded, HuffTable.Valid, DiffCodable, AcCodable, AcFilled, EndFilled;
    if n > 0 {
      var b, rest := blocks[0], blocks[1..];
      assert rest[n - 1..] == blocks[n..];
      FarFromEnd(dc, ac, rest, n - 1, more);
      CodeGrows(dc, ac, rest, n - 1);
      DiffLength(dc, b.diff);
      AcFar(ac, b.ac, |CodeBlocks(dc, ac, rest)| + more);
    }
  }

  lemma {:induction false} CodeGrows(dc: HuffTable, ac: HuffTable, blocks: seq<Block>, n: nat)
    requires dc.Valid() && ac.Valid() && BlocksCodable(dc, ac, blocks) && n <= |blocks|
    ensures BlocksCodable(dc, ac, blocks[n..]) && |CodeBlocks(dc, ac, blocks)| >= |CodeBlocks(dc, ac, blocks[n..])|
    decreases n
  {
    hide CodeDiff, CodeAc, HuffTable.Expanded, HuffTable.Valid, DiffCodable, AcCodable;
    if n > 0 {
      assert blocks[1..][n - 1..] == blocks[n..];
      CodeGrows(dc, ac, blocks[1..], n - 1);
    }
  }

  lemma DiffLength(t: HuffTable, diff: int)
    requires t.Valid() && DiffCodable(t, diff)
    ensures |CodeDiff(t, diff)| >= 1
  {
    hide HuffTable.Valid, SymbolBits, Category;
    SymbolRead(t, if diff == -32768 then 16 else Category(Abs(diff)), [], AtEnd);
  }

  lemma {:induction false} AcFar(t: HuffTable, ac: seq<int>, more: nat)
    requires t.Valid() && AcCodable(t, ac) && more + 1 >= t.Expanded()[0]
    ensures AcFilled(t, ac, more) && EndFilled(t, ac, more)
    decreases |ac|
  {
    hide HuffTable.Valid, HuffTable.Expanded, SymbolBits, Category;
    EndsInZeroTail(ac);
    if EndsInZero(ac) {
      EndCoded(t, ac);
      SymbolRead(t, EOB, [], AtEnd);
    }
    if !AllZero(ac) {
      CodeTail(t, ac);
      AcFar(t, ac[Taken(ac)..], more);
      SymbolRead(t, if ZeroRun(ac) > 15 then ZRL else RunSymbol(ac), [], AtEnd);
    }
  }

  // ---------------------------------------------------------------------------------------
  // Exactly which codings come back
  // ---------------------------------------------------------------------------------------

  predicate AllPositive(quant: seq<nat>) {
    |quant| == 64 && forall k :: 0 <= k < 64 ==> 0 < quant[k] < 0x1_0000
  }

  /** The table's symbols are lengths of differences. */
  predicate AreLengths(t: HuffTable) {
    forall k :: 0 <= k < |t.syms| ==> t.syms[k] <= 16
  }

  /** With too few bits left for an AC symbol every further block is its difference alone: the
      blocks are that, and the differences are those that the bits left hold. */
  ghost predicate OnlyDiffs(dc: HuffTable, bits: seq<bit>, blocks: seq<Block>)
    requires dc.Valid() && IsTable(dc.Expanded())
    decreases |blocks|
  {
    blocks == []
    || (var r := ReadDiff(Stream(bits, AtEnd), dc.Expanded());
        AllZero(blocks[0].ac) && r.Ok? && r.value.0 == blocks[0].diff && OnlyDiffs(dc, r.value.1.bits, blocks[1..]))
  }

  /** With too few bits left for a difference every further difference is 0: so are those of the
      blocks, and their coefficients are those that the bits left hold. */
  ghost predicate OnlyAcs(ac: HuffTable, bits: seq<bit>, blocks: seq<Block>, quant: seq<nat>, vpred: int)
    requires ac.Valid() && IsTable(ac.Expanded()) && |quant| == 64
    requires forall k :: 0 <= k < |blocks| ==> |blocks[k].ac| == 63
    decreases |blocks|
  {
    blocks == []
    || (var r := ReadAc(Stream(bits, AtEnd), ac.Expanded(), quant, 1, Blank(vpred));
        && blocks[0].diff == 0 && r.Ok? && r.value.0 == Placed(Blank(vpred), blocks[0].ac, quant, 1)
        && OnlyAcs(ac, r.value.1.bits, blocks[1..], quant, vpred))
  }

  /** When the blocks come back, read by read: a filled read gives what was coded; where the
      first window is not filled, a difference or a coefficient other than 0 is lost, and after
      a difference of 0 or an end of block, which are not consumed, the bits left decide. */
  ghost predicate ComesBack(dc: HuffTable, ac: HuffTable, blocks: seq<Block>, quant: seq<nat>, vpred: int, tail: seq<bit>)
    requires dc.Valid() && ac.Valid() && BlocksCodable(dc, ac, blocks) && |quant| == 64
    requires IsTable(dc.Expanded()) && IsTable(ac.Expanded())
    decreases |blocks|
  {
    blocks == []
    || (var b, more := blocks[0], CodeBlocks(dc, ac, blocks[1..]) + tail;
        var code := CodeDiff(dc, b.diff) + (CodeAc(ac, b.ac) + more);
        if |code| < dc.Expanded()[0] then OnlyAcs(ac, code, blocks, quant, vpred)
        else
          && AcFilled(ac, b.ac, |more|)
          && if EndFilled(ac, b.ac, |more|)
             then ComesBack(dc, ac, blocks[1..], quant, Wrap32(vpred + b.diff * quant[0]), tail)
             else OnlyDiffs(dc, AcLeft(ac, b.ac, more), blocks[1..]))
  }

  /** Differences of at most 16 bits are told apart by the predictor they lead to. */
  lemma DiffShows(vpred: int, a: int, b: int, q: nat)
    requires -32768 <= a <= 32767 && -32768 <= b <= 32767 && 0 < q < 0x1_0000
    ensures Wrap32(vpred + a * q) == Wrap32(vpred + b * q) <==> a == b
  {
    if a < b {
      StepShows(vpred + a * q, b - a, q);
      Factor(b - a, a, q);
    } else if b < a {
      StepShows(vpred + b * q, a - b, q);
      Factor(a - b, b, q);
    }
  }

  lemma StepShows(x: int, d: nat, q: nat)
    requires 0 < d < 0x1_0000 && 0 < q < 0x1_0000
    ensures Wrap32(x + d * q) != Wrap32(x)
  {
    StepBound(d, q);
    var p := d * q;
    assert (x + p) - x == p;
  }

  lemma StepBound(d: nat, q: nat)
    requires 0 < d < 0x1_0000 && 0 < q < 0x1_0000
    ensures 0 < d * q < 0x1_0000_0000
  {
    MulGap(q, d, 0x1_0000);
    MulGap(d, 0, q);
  }

  lemma SymbolIsLength(t: HuffTable, bits: seq<bit>)
    requires t.Valid() && AreLengths(t) && IsTable(t.Expanded())
    ensures Symbol(Stream(bits, AtEnd), t.Expanded()).0.Ok? ==> Symbol(Stream(bits, AtEnd), t.Expanded()).0.value <= 16
  {
    hide Pow, Window, Kraft, SumCounts, MaxLength;
    var h := t.Expanded();
    TableWidth(h);
    PeekBound(bits, h[0]);
    var y := 1 + Peek(bits, h[0]);
    var m := MaxLength(t.counts, MAX_LENGTH);
    assert h == Expanded(t.counts, t.syms, m);
    EntryIsLength(Window(t.counts, m, y - 1), t);
    assert h[1..][y - 1] == h[y];
  }

  lemma EntryIsLength(r: Read, t: HuffTable)
    requires AreLengths(t)
    ensures Entry(r, t.syms) % 256 <= 16
  {
    if r.Found? && r.index < |t.syms| {
      SymbolEntry(r.len, t.syms[r.index]);
    }
  }

  /** What a difference is read as has 16 bits. */
  lemma DiffIsShort(t: HuffTable, bits: seq<bit>)
    requires t.Valid() && AreLengths(t) && IsTable(t.Expanded())
    ensures var r := ReadDiff(Stream(bits, AtEnd), t.Expanded()); r.Ok? && -32768 <= r.value.0 <= 32767
  {
    hide Symbol, Get, Pow, IsTable, HuffTable.Expanded, HuffTable.Valid, Extend;
    DiffAtEnd(t.Expanded(), bits);
    SymbolIsLength(t, bits);
    SymbolAtEnd(t.Expanded(), bits);
    var (cat, s1) := Symbol(Stream(bits, AtEnd), t.Expanded());
    RawBound(s1.bits, cat.value);
    if cat.value < 16 {
      ExtendShort(cat.value, Get(s1, cat.value, None).0.value);
    }
  }

  lemma RawBound(bits: seq<bit>, n: nat)
    ensures var r := Get(Stream(bits, AtEnd), n, None).0; r.Ok? && r.value < Pow(2, n)
  {
    hide Pow;
    PeekBound(bits, n);
    ValueBound(2, Zeros(n));
  }

  lemma ExtendShort(len: nat, d: nat)
    requires len <= 15 && d < Pow(2, len)
    ensures -32768 < Extend(len, d) < 32768
  {
    hide Pow;
    PowMonotone(len, 15);
    PowAdd(2, 8, 7);
    SmallPowers();
  }

  lemma BlankIsPlaced(v: int, ac: seq<int>, quant: seq<nat>)
    requires |ac| == 63 && AllPositive(quant)
    ensures Blank(v) == Placed(Blank(v), ac, quant, 1) <==> AllZero(ac)
  {
    hide Placed, Blank;
    BlankZero(v);
    NotPlaced(Blank(v), ac, quant, 1);
  }

  ghost predicate ShortBlocks(blocks: seq<Block>) {
    forall k :: 0 <= k < |blocks| ==> |blocks[k].ac| == 63 && -32768 <= blocks[k].diff <= 32767
  }

  lemma CodableShort(dc: HuffTable, ac: HuffTable, blocks: seq<Block>)
    requires dc.Valid() && ac.Valid() && BlocksCodable(dc, ac, blocks)
    ensures ShortBlocks(blocks)
  {
    hide HuffTable.Valid, HuffTable.Has, Category, AcCodable;
  }

  lemma {:induction false} OnlyDiffsBack(dc: HuffTable, ac: HuffTable, bits: seq<bit>, blocks: seq<Block>, quant: seq<nat>, vpred: int)
    requires dc.Valid() && ac.Valid() && IsTable(dc.Expanded()) && IsTable(ac.Expanded())
    requires AreLengths(dc) && ShortBlocks(blocks) && AllPositive(quant) && |bits| < ac.Expanded()[0]
    ensures var r := ReadBlocks(Stream(bits, AtEnd), dc.Expanded(), ac.Expanded(), quant, |blocks|, vpred);
            r.Ok? && (Recovered(blocks, quant, vpred, r.value.0, r.value.1, |blocks|) <==> OnlyDiffs(dc, bits, blocks))
    decreases |blocks|
  {
    hide HuffTable.Expanded, HuffTable.Valid, IsTable, Wrap32, ReadDiff, ReadAc, ReadBlocks, Placed, Blank, Recovered, AllZero, AreLengths;
    var hDc, hAc := dc.Expanded(), ac.Expanded();
    if blocks == [] {
      NoBlocks(Stream(bits, AtEnd), hDc, hAc, quant, vpred);
    } else {
      var b := blocks[0];
      DiffAtEnd(hDc, bits);
      DiffIsShort(dc, bits);
      var (d, s1) := ReadDiff(Stream(bits, AtEnd), hDc).value;
      var v := Wrap32(vpred + d * quant[0]);
      BlocksFirst(hDc, hAc, bits, quant, |blocks|, vpred, d, s1.bits);
      AcAtEnd(hAc, s1.bits, quant, 1, Blank(v));
      OnlyDiffsBack(dc, ac, s1.bits, blocks[1..], quant, v);
      DiffShows(vpred, d, b.diff, quant[0]);
      BlankIsPlaced(v, b.ac, quant);
      var rest := ReadBlocks(s1, hDc, hAc, quant, |blocks| - 1, v).value;
      RecoveredStep(blocks, quant, vpred, v, Blank(v), rest.0, rest.1, |blocks|);
    }
  }

  lemma NoBlocks(s: Stream, hDc: seq<nat>, hAc: seq<nat>, quant: seq<nat>, vpred: int)
    requires IsTable(hDc) && IsTable(hAc) && |quant| == 64
    ensures ReadBlocks(s, hDc, hAc, quant, 0, vpred) == Ok(([], []))
    ensures Recovered([], quant, vpred, [], [], 0)
  {
    hide IsTable;
  }

  lemma {:induction false} OnlyAcsBack(dc: HuffTable, ac: HuffTable, bits: seq<bit>, blocks: seq<Block>, quant: seq<nat>, vpred: int)
    requires dc.Valid() && ac.Valid() && IsTable(dc.Expanded()) && IsTable(ac.Expanded())
    requires ShortBlocks(blocks) && AllPositive(quant) && |bits| < dc.Expanded()[0] && Wrap32(vpred) == vpred
    ensures var r := ReadBlocks(Stream(bits, AtEnd), dc.Expanded(), ac.Expanded(), quant, |blocks|, vpred);
            r.Ok? && (Recovered(blocks, quant, vpred, r.value.0, r.value.1, |blocks|) <==> OnlyAcs(ac, bits, blocks, quant, vpred))
    decreases |blocks|
  {
    hide HuffTable.Expanded, HuffTable.Valid, IsTable, Wrap32, ReadDiff, ReadAc, ReadBlocks, Placed, Blank, Recovered;
    var hDc, hAc := dc.Expanded(), ac.Expanded();
    if blocks == [] {
      NoBlocks(Stream(bits, AtEnd), hDc, hAc, quant, vpred);
    } else {
      var b := blocks[0];
      DiffAtEnd(hDc, bits);
      BlocksFirst(hDc, hAc, bits, quant, |blocks|, vpred, 0, bits);
      AcAtEnd(hAc, bits, quant, 1, Blank(vpred));
      var (cs, s2) := ReadAc(Stream(bits, AtEnd), hAc, quant, 1, Blank(vpred)).value;
      OnlyAcsBack(dc, ac, s2.bits, blocks[1..], quant, vpred);
      DiffShows(vpred, 0, b.diff, quant[0]);
      var rest := ReadBlocks(s2, hDc, hAc, quant, |blocks| - 1, vpred).value;
      RecoveredStep(blocks, quant, vpred, vpred, cs, rest.0, rest.1, |blocks|);
    }
  }

  lemma {:induction false} BlocksBack(dc: HuffTable, ac: HuffTable, blocks: seq<Block>, quant: seq<nat>, vpred: int, tail: seq<bit>)
    requires dc.Valid() && ac.Valid() && BlocksCodable(dc, ac, blocks) && AreLengths(dc) && AllPositive(quant)
    requires IsTable(dc.Expanded()) && IsTable(ac.Expanded()) && Wrap32(vpred) == vpred
    ensures var r := ReadBlocks(Stream(CodeBlocks(dc, ac, blocks) + tail, AtEnd), dc.Expanded(), ac.Expanded(), quant, |blocks|, vpred);
            r.Ok? && (Recovered(blocks, quant, vpred, r.value.0, r.value.1, |blocks|) <==> ComesBack(dc, ac, blocks, quant, vpred, tail))
    decreases |blocks|, 1
  {
    hide CodeDiff, CodeAc, HuffTable.Expanded, HuffTable.Valid, IsTable, DiffCodable, AcCodable, AcFilled, EndFilled, Wrap32, ReadBlocks,
      ReadDiff, ReadAc, Placed, Blank, CodeBlocks, Recovered, AreLengths, OnlyDiffs, OnlyAcs;
    var hDc, hAc := dc.Expanded(), ac.Expanded();
    var bits := CodeBlocks(dc, ac, blocks) + tail;
    CodableShort(dc, ac, blocks);
    if blocks == [] {
      NoBlocks(Stream(bits, AtEnd), hDc, hAc, quant, vpred);
    } else {
      FirstCode(dc, ac, blocks, tail);
      TableWidth(hDc);
      if |bits| < hDc[0] {
        OnlyAcsBack(dc, ac, bits, blocks, quant, vpred);
      } else {
        FirstBack(dc, ac, blocks, quant, vpred, tail);
      }
    }
  }

  /** The first block's difference is read. */
  lemma {:induction false} FirstBack(dc: HuffTable, ac: HuffTable, blocks: seq<Block>, quant: seq<nat>, vpred: int, tail: seq<bit>)
    requires dc.Valid() && ac.Valid() && BlocksCodable(dc, ac, blocks) && AreLengths(dc) && AllPositive(quant) && blocks != []
    requires IsTable(dc.Expanded()) && IsTable(ac.Expanded()) && |CodeBlocks(dc, ac, blocks) + tail| >= dc.Expanded()[0]
    ensures var r := ReadBlocks(Stream(CodeBlocks(dc, ac, blocks) + tail, AtEnd), dc.Expanded(), ac.Expanded(), quant, |blocks|, vpred);
            r.Ok? && (Recovered(blocks, quant, vpred, r.value.0, r.value.1, |blocks|) <==> ComesBack(dc, ac, blocks, quant, vpred, tail))
    decreases |blocks|, 0
  {
    hide CodeDiff, CodeAc, HuffTable.Expanded, HuffTable.Valid, IsTable, DiffCodable, AcCodable, AcFilled, EndFilled, Wrap32, ReadBlocks,
      ReadDiff, ReadAc, Placed, Blank, CodeBlocks, Recovered, AreLengths, OnlyDiffs, OnlyAcs;
    var hDc, hAc := dc.Expanded(), ac.Expanded();
    var b, more := blocks[0], CodeBlocks(dc, ac, blocks[1..]) + tail;
    var v := Wrap32(vpred + b.diff * quant[0]);
    FirstCode(dc, ac, blocks, tail);
    DiffRead(dc, b.diff, CodeAc(ac, b.ac) + more);
    BlocksFirst(hDc, hAc, CodeBlocks(dc, ac, blocks) + tail, quant, |blocks|, vpred, b.diff, CodeAc(ac, b.ac) + more);
    BlankZero(v);
    var (cs, s2) := ReadAc(Stream(CodeAc(ac, b.ac) + more, AtEnd), hAc, quant, 1, Blank(v)).value;
    var rest := ReadBlocks(s2, hDc, hAc, quant, |blocks| - 1, v).value;
    RecoveredStep(blocks, quant, vpred, v, cs, rest.0, rest.1, |blocks|);
    CodableShort(dc, ac, blocks);
    if !AcFilled(ac, b.ac, |more|) {
      AcLost(ac, b.ac, quant, 1, Blank(v), more);
    } else {
      AcRead(ac, b.ac, quant, 1, Blank(v), more);
      if EndFilled(ac, b.ac, |more|) {
        WrapTwice(vpred + b.diff * quant[0]);
        BlocksBack(dc, ac, blocks[1..], quant, v, tail);
      } else {
        EndLeft(ac, b.ac, more);
        OnlyDiffsBack(dc, ac, s2.bits, blocks[1..], quant, v);
      }
    }
  }

  lemma WrapTwice(x: int)
    ensures Wrap32(Wrap32(x)) == Wrap32(x)
  {
  }

  lemma EndLeft(t: HuffTable, ac: seq<int>, rest: seq<bit>)
    requires t.Valid() && AcCodable(t, ac) && !EndFilled(t, ac, |rest|)
    ensures |AcLeft(t, ac, rest)| < t.Expanded()[0]
  {
    hide HuffTable.Valid, HuffTable.Expanded, SymbolBits, AcCodable;
  }

  /** Blocks coded, filled to whole bytes by any bits and stuffed, all come back exactly under
      `ComesBack`. */
  lemma ScanComesBackExactly(dc: HuffTable, ac: HuffTable, blocks: seq<Block>, quant: seq<nat>, tail: seq<bit>)
    requires dc.Valid() && ac.Valid() && BlocksCodable(dc, ac, blocks) && AreLengths(dc) && AllPositive(quant)
    requires |CodeBlocks(dc, ac, blocks) + tail| % 8 == 0
    ensures IsTable(dc.Expanded()) && IsTable(ac.Expanded())
    ensures var r := Decoded(Stuff(Pack(CodeBlocks(dc, ac, blocks) + tail)), dc.Expanded(), ac.Expanded(), quant, |blocks|);
            r.Ok? && (Recovered(blocks, quant, VPRED0, r.value.0, r.value.1, |blocks|) <==> ComesBack(dc, ac, blocks, quant, VPRED0, tail))
  {
    hide HuffTable.Expanded, HuffTable.Valid, IsTable, BlocksCodable, ReadBlocks, CodeBlocks, Pack, Stuff, Recovered, ComesBack, Decoded, AreLengths;
    TableIsTable(dc);
    TableIsTable(ac);
    DecodedBits(dc, ac, blocks, quant, tail);
    BlocksBack(dc, ac, blocks, quant, VPRED0, tail);
  }

  /** Filled reads are the ordinary way to come back. */
  lemma {:induction false} FilledComesBack(dc: HuffTable, ac: HuffTable, blocks: seq<Block>, quant: seq<nat>, vpred: int, tail: seq<bit>)
    requires dc.Valid() && ac.Valid() && BlocksCodable(dc, ac, blocks) && |quant| == 64
    requires IsTable(dc.Expanded()) && IsTable(ac.Expanded()) && FilledFor(dc, ac, blocks, |blocks|, |tail|)
    ensures ComesBack(dc, ac, blocks, quant, vpred, tail)
    decreases |blocks|
  {
    hide CodeDiff, CodeAc, HuffTable.Expanded, HuffTable.Valid, IsTable, DiffCodable, AcCodable, AcFilled, EndFilled, Wrap32, CodeBlocks, OnlyAcs;
    if blocks != [] {
      var b, more := blocks[0], CodeBlocks(dc, ac, blocks[1..]) + tail;
      assert EndFilled(ac, b.ac, |more|) || blocks[1..] == [];
      FilledComesBack(dc, ac, blocks[1..], quant, Wrap32(vpred + b.diff * quant[0]), tail);
    }
  }

  predicate AllBlank(blocks: seq<Block>) {
    forall k :: 0 <= k < |blocks| ==> blocks[k].diff == 0 && AllZero(blocks[k].ac)
  }

  /** Where the bits left fill neither window, everything further is read as 0. */
  lemma {:induction false} NothingMoreIsRead(dc: HuffTable, ac: HuffTable, bits: seq<bit>, blocks: seq<Block>, quant: seq<nat>, vpred: int)
    requires dc.Valid() && ac.Valid() && IsTable(dc.Expanded()) && IsTable(ac.Expanded())
    requires |bits| < dc.Expanded()[0] && |bits| < ac.Expanded()[0]
    requires AllPositive(quant) && forall k :: 0 <= k < |blocks| ==> |blocks[k].ac| == 63
    ensures OnlyDiffs(dc, bits, blocks) <==> AllBlank(blocks)
    ensures OnlyAcs(ac, bits, blocks, quant, vpred) <==> AllBlank(blocks)
    decreases |blocks|
  {
    hide HuffTable.Expanded, HuffTable.Valid, IsTable, ReadDiff, ReadAc, Placed, Blank, AllZero;
    if blocks != [] {
      DiffAtEnd(dc.Expanded(), bits);
      AcAtEnd(ac.Expanded(), bits, quant, 1, Blank(vpred));
      BlankIsPlaced(vpred, blocks[0].ac, quant);
      NothingMoreIsRead(dc, ac, bits, blocks[1..], quant, vpred);
      BlankCons(blocks);
    }
  }

  lemma BlankCons(blocks: seq<Block>)
    requires blocks != []
    ensures AllBlank(blocks) <==> blocks[0].diff == 0 && AllZero(blocks[0].ac) && AllBlank(blocks[1..])
  {
    hide AllZero;
    assert forall k :: 0 < k < |blocks| ==> blocks[k] == blocks[1..][k - 1];
  }

  // ---------------------------------------------------------------------------------------
  // One byte that does not come back
  // ---------------------------------------------------------------------------------------

  /** A code of 2 bits and one of 16. */
  const TWO_AND_SIXTEEN: seq<byte> := [0, 1, 0, 0, 0, 0, 0, 0, 0, 0, 0, 0, 0, 0, 0, 1]

  lemma {:induction false} SparseCounts(l: nat)
    requires 2 <= l <= 15
    ensures SumCounts(TWO_AND_SIXTEEN, l) == 1 && SumCounts(TWO_AND_SIXTEEN, 1) == 0
    ensures End(TWO_AND_SIXTEEN, l) == Pow(2, l - 2) && End(TWO_AND_SIXTEEN, 1) == 0
  {
    if l > 2 {
      SparseCounts(l - 1);
    } else {
      assert SumCounts(TWO_AND_SIXTEEN, 0) == 0 && End(TWO_AND_SIXTEEN, 0) == 0;
    }
  }

  lemma SparseEnd()
    ensures var c := TWO_AND_SIXTEEN;
            && |c| == MAX_LENGTH && SumCounts(c, MAX_LENGTH) == SumCounts(c, 15) + 1 && End(c, MAX_LENGTH) == 2 * End(c, 15) + 1
            && MaxLength(c, MAX_LENGTH) == MAX_LENGTH
  {
  }

  lemma SparseKraft()
    ensures |TWO_AND_SIXTEEN| == MAX_LENGTH && Kraft(TWO_AND_SIXTEEN) && SumCounts(TWO_AND_SIXTEEN, MAX_LENGTH) == 2
    ensures MaxLength(TWO_AND_SIXTEEN, MAX_LENGTH) == MAX_LENGTH
  {
    hide Pow, SumCounts, End, MaxLength, TWO_AND_SIXTEEN;
    SparseEnd();
    SparseCounts(15);
    PowSucc(2, 13);
    PowSucc(2, 14);
    PowSucc(2, 15);
  }

  /** Two symbols with codes of these lengths make a table with a window of 16 bits. */
  lemma SparseTable(t: HuffTable)
    requires t.counts == TWO_AND_SIXTEEN && |t.syms| == 2
    ensures t.Valid() && t.Expanded()[0] == 16 && t.Has(t.syms[0]) && t.Has(t.syms[1])
  {
    hide Pow, SumCounts, End, MaxLength, Kraft, TWO_AND_SIXTEEN, Entry, Window;
    SparseKraft();
    HasAt(t, 0);
    HasAt(t, 1);
  }

  lemma HasAt(t: HuffTable, k: nat)
    requires t.Valid() && k < SumCounts(t.counts, MAX_LENGTH) && k < |t.syms|
    ensures t.Has(t.syms[k])
  {
    hide HuffTable.Valid, SumCounts;
  }

  /** The first of them has the code of 2 bits. */
  lemma SparseLength(t: HuffTable)
    requires t.counts == TWO_AND_SIXTEEN && |t.syms| == 2 && t.syms[0] != t.syms[1] && t.Valid() && t.Has(t.syms[0])
    ensures |SymbolBits(t, t.syms[0])| == 2
  {
    hide HuffTable.Valid, HuffTable.Has, LengthOf, First, End, Digits, SumCounts, Pow, MaxLength, Kraft, TWO_AND_SIXTEEN;
    SparseCounts(2);
    SparseKraft();
    var k := IndexOf(t, t.syms[0]);
    assert k == 0;
    var len := LengthOf(t.counts, k, MAX_LENGTH);
    if len > 2 {
      SparseCounts(len - 1);
    }
  }

  const LOST_DC: HuffTable := HuffTable(TWO_AND_SIXTEEN, [1, 2])
  const LOST_AC: HuffTable := HuffTable(TWO_AND_SIXTEEN, [0, 1])

  function LostBlock(): Block {
    Block(1, seq(63, _ => 0))
  }

  lemma LostBlockCodable()
    ensures LOST_DC.Valid() && LOST_AC.Valid() && BlocksCodable(LOST_DC, LOST_AC, [LostBlock()])
    ensures LOST_DC.Expanded()[0] == 16 == LOST_AC.Expanded()[0]
    ensures |CodeBlocks(LOST_DC, LOST_AC, [LostBlock()])| == 5
  {
    hide HuffTable.Valid, HuffTable.Has, HuffTable.Expanded, SymbolBits, Digits;
    SparseTable(LOST_DC);
    SparseTable(LOST_AC);
    SparseLength(LOST_DC);
    SparseLength(LOST_AC);
    var b := LostBlock();
    assert Category(1) == 1;
    assert AllZero(b.ac) && b.ac != [];
    assert DiffCodable(LOST_DC, 1) && |CodeDiff(LOST_DC, 1)| == 3;
    assert AcCodable(LOST_AC, b.ac) && |CodeAc(LOST_AC, b.ac)| == 2;
    assert [b][1..] == [];
  }

  /** One block in one byte: a difference of 1, no coefficients, and three bits of filling. The
      windows of 16 bits are never filled, and the difference is lost. */
  lemma LostDifference(quant: seq<nat>, tail: seq<bit>)
    requires AllPositive(quant) && |tail| == 3
    ensures LOST_DC.Valid() && LOST_AC.Valid() && BlocksCodable(LOST_DC, LOST_AC, [LostBlock()])
    ensures IsTable(LOST_DC.Expanded()) && IsTable(LOST_AC.Expanded())
    ensures |CodeBlocks(LOST_DC, LOST_AC, [LostBlock()]) + tail| == 8
    ensures var data := Stuff(Pack(CodeBlocks(LOST_DC, LOST_AC, [LostBlock()]) + tail));
            Decoded(data, LOST_DC.Expanded(), LOST_AC.Expanded(), quant, 1) == Ok(([16384], [Blank(16384)]))
            && !Recovered([LostBlock()], quant, VPRED0, [16384], [Blank(16384)], 1)
  {
    hide HuffTable.Valid, HuffTable.Expanded, IsTable, CodeBlocks, Pack, Stuff, ReadDiff, ReadAc, Decoded, Blank, BlocksCodable, Wrap32, Placed;
    LostBlockCodable();
    var hDc, hAc, blocks := LOST_DC.Expanded(), LOST_AC.Expanded(), [LostBlock()];
    var bits := CodeBlocks(LOST_DC, LOST_AC, blocks) + tail;
    TableIsTable(LOST_DC);
    TableIsTable(LOST_AC);
    DecodedBits(LOST_DC, LOST_AC, blocks, quant, tail);
    DiffAtEnd(hDc, bits);
    BlocksFirst(hDc, hAc, bits, quant, 1, VPRED0, 0, bits);
    AcAtEnd(hAc, bits, quant, 1, Blank(VPRED0));
    NoBlocks(Stream(bits, AtEnd), hDc, hAc, quant, VPRED0);
    DiffShows(VPRED0, 0, 1, quant[0]);
    RecoveredStep(blocks, quant, VPRED0, VPRED0, Blank(VPRED0), [], [], 1);
    assert [VPRED0] + [] == [VPRED0] && [Blank(VPRED0)] + [] == [Blank(VPRED0)];
    WrapTwice(16384);
  }

  lemma PlacedAt(vpred: int, ac: seq<int>, quant: seq<nat>, i: nat)
    requires |ac| == 63 && |quant| == 64 && 1 <= i < 64
    ensures var r := Placed(Blank(vpred), ac, quant, 1); r[0] == vpred && r[Zigzag(i)] == ac[i - 1] * quant[i]
  {
    assert FileOrder(0) == 0;
    hide Zigzag, FileOrder;
    ZigzagInverse(i);
  }

  /** Neither a DC step nor a dequantised coefficient leaves the 32-bit range. */
  lemma ProductFits(len: nat, d: nat, q: nat)
    requires len <= 15 && d < Pow(2, len) && q < 0x1_0000
    ensures -0x8000_0000 <= Extend(len, d) * q < 0x8000_0000
    ensures -0x8000_0000 <= -32768 * q
  {
    hide Pow;
    PowMonotone(len, 15);
    PowAdd(2, 8, 7);
    SmallPowers();
    var v := Extend(len, d);
    assert -0x8000 < v < 0x8000;
    ProductBound(v, q);
  }

  lemma SmallPowers()
    ensures Pow(2, 8) == 256 && Pow(2, 7) == 128
  {
  }

  lemma ProductBound(v: int, q: nat)
    requires -0x8000 < v < 0x8000 && q < 0x1_0000
    ensures -0x8000_0000 <= v * q < 0x8000_0000
  {
    MulGap(q, Abs(v), 0x8000);
  }

  lemma PowMonotone(a: nat, b: nat)
    requires a <= b
    ensures Pow(2, a) <= Pow(2, b)
  {
    if a < b {
      PowMonotone(a, b - 1);
    }
  }
}
