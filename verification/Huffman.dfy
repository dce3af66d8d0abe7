/** The two Huffman decoders of the repository on one code: the incremental first-code/rank
    decoder (tools/ljpeg_decode.py), the fully expanded window table (tool/src/dct2s.rs), and
    the canonical codes of Annex C of ITU-T T.81 that both read. */
module Huffman {
  import opened Prelude
  import opened Positional

  type bit = i: int | 0 <= i < 2

  const MAX_LENGTH: nat := 16

  /** How many codes are at most `l` bits long. */
  function SumCounts(counts: seq<byte>, l: nat): nat
    requires l <= |counts|
  {
    if l == 0 then 0 else SumCounts(counts, l - 1) + counts[l - 1]
  }

  /** The first `l`-bit value no code of at most `l` bits begins. */
  function End(counts: seq<byte>, l: nat): nat
    requires l <= |counts|
  {
    if l == 0 then 0 else 2 * End(counts, l - 1) + counts[l - 1]
  }

  /** The first code of length `l` (Annex C.2). */
  function First(counts: seq<byte>, l: nat): nat
    requires 1 <= l <= |counts|
  {
    2 * End(counts, l - 1)
  }

  /** The codes fit into their lengths (Kraft's inequality). */
  predicate Kraft(counts: seq<byte>)
    requires |counts| == MAX_LENGTH
  {
    End(counts, MAX_LENGTH) <= Pow(2, MAX_LENGTH)
  }

  /** The code of the `rank`-th symbol of length `len`, as bits. */
  function CodeBits(counts: seq<byte>, len: nat, rank: nat): (bits: seq<bit>)
    requires 1 <= len <= |counts|
  {
    Digits(2, len, First(counts, len) + rank)
  }

  // ---------------------------------------------------------------------------------------
  // The incremental decoder
  // ---------------------------------------------------------------------------------------

  /** A code of `len` bits was read, the `index`-th in the table; 16 bits match no code; or
      the bits ran out first. */
  datatype Read = Found(len: nat, index: nat) | NoCode | OutOfBits

  /** One bit after the other from the `k`-th on: `v` is what has been read, `first` the first
      code of the next length. */
  function ReadFrom(counts: seq<byte>, bits: seq<bit>, k: nat, v: nat, first: nat): Read
    requires k <= MAX_LENGTH == |counts|
    decreases MAX_LENGTH - k
  {
    if k == MAX_LENGTH then NoCode
    else if bits == [] then OutOfBits
    else
      var v' := 2 * v + bits[0];
      if 0 <= v' - first < counts[k] then Found(k + 1, SumCounts(counts, k) + (v' - first))
      else ReadFrom(counts, bits[1..], k + 1, v', 2 * (first + counts[k]))
  }

  function ReadCode(counts: seq<byte>, bits: seq<bit>): Read
    requires |counts| == MAX_LENGTH
  {
    ReadFrom(counts, bits, 0, 0, 0)
  }

  lemma ValueTake(bits: seq<bit>, l: nat)
    requires 1 <= l <= |bits|
    ensures Value(2, bits[..l]) == 2 * Value(2, bits[..l - 1]) + bits[l - 1]
  {
    assert bits[..l][..l - 1] == bits[..l - 1];
  }

  lemma EndNone(counts: seq<byte>)
    ensures End(counts, 0) == 0
  {
  }

  lemma NoBits(bits: seq<bit>)
    ensures Value(2, bits[..0]) == 0
  {
  }

  lemma EndStep(counts: seq<byte>, l: nat)
    requires 1 <= l <= |counts|
    ensures End(counts, l) == 2 * End(counts, l - 1) + counts[l - 1] && First(counts, l) == 2 * End(counts, l - 1)
  {
  }

  lemma ReadStep(counts: seq<byte>, bits: seq<bit>, k: nat, v: nat, first: nat)
    requires k < MAX_LENGTH == |counts| && bits != [] && 2 * v + bits[0] >= first + counts[k]
    ensures ReadFrom(counts, bits, k, v, first) == ReadFrom(counts, bits[1..], k + 1, 2 * v + bits[0], 2 * (first + counts[k]))
  {
  }

  /** As long as the bits read reach past every code so far, the decoder goes on. */
  lemma {:induction false} ReadsOn(counts: seq<byte>, bits: seq<bit>, l: nat)
    requires |counts| == MAX_LENGTH && l <= |bits| && l <= MAX_LENGTH
    requires Value(2, bits[..l]) >= End(counts, l)
    ensures ReadCode(counts, bits) == ReadFrom(counts, bits[l..], l, Value(2, bits[..l]), 2 * End(counts, l))
  {
    hide Value, End, ReadFrom;
    if l == 0 {
      EndNone(counts);
      NoBits(bits);
      assert bits[0..] == bits;
    } else {
      ValueTake(bits, l);
      EndStep(counts, l);
      ReadsOn(counts, bits, l - 1);
      assert bits[l - 1..][0] == bits[l - 1] && bits[l - 1..][1..] == bits[l..];
      ReadStep(counts, bits[l - 1..], l - 1, Value(2, bits[..l - 1]), 2 * End(counts, l - 1));
    }
  }

  /** Leading bits past every code of their length are past every code of a shorter length. */
  lemma {:induction false} PastShorter(counts: seq<byte>, bits: seq<bit>, k: nat, l: nat)
    requires k <= l <= |bits| && l <= |counts| && Value(2, bits[..l]) >= End(counts, l)
    ensures Value(2, bits[..k]) >= End(counts, k)
    decreases l
  {
    if k < l {
      ValueTake(bits, l);
      PastShorter(counts, bits, k, l - 1);
    }
  }

  /** The decoder finds a symbol exactly where the leading bits are its code. */
  lemma ReadFinds(counts: seq<byte>, bits: seq<bit>, len: nat, rank: nat)
    requires |counts| == MAX_LENGTH && 1 <= len <= MAX_LENGTH && len <= |bits|
    requires rank < counts[len - 1] && Value(2, bits[..len]) == First(counts, len) + rank
    ensures ReadCode(counts, bits) == Found(len, SumCounts(counts, len - 1) + rank)
  {
    hide Value;
    ValueTake(bits, len);
    ReadsOn(counts, bits, len - 1);
    assert bits[len - 1..][0] == bits[len - 1];
  }

  /** What the decoder finds is the code it read, and none is found past the last code. */
  lemma {:induction false} ReadFound(counts: seq<byte>, bits: seq<bit>, l: nat)
    requires |counts| == MAX_LENGTH && l <= |bits| && l <= MAX_LENGTH
    requires Value(2, bits[..l]) >= End(counts, l)
    ensures var r := ReadCode(counts, bits);
            r.Found? ==> && l < r.len <= |bits| && r.len <= MAX_LENGTH
                         && SumCounts(counts, r.len - 1) <= r.index < SumCounts(counts, r.len)
                         && Value(2, bits[..r.len]) == First(counts, r.len) + r.index - SumCounts(counts, r.len - 1)
    decreases MAX_LENGTH - l
  {
    hide Value;
    ReadsOn(counts, bits, l);
    if l < MAX_LENGTH && l < |bits| {
      ValueTake(bits, l + 1);
      assert bits[l..][0] == bits[l];
      if Value(2, bits[..l + 1]) >= End(counts, l + 1) {
        ReadFound(counts, bits, l + 1);
      }
    }
  }

  // ---------------------------------------------------------------------------------------
  // Canonical codes are prefix codes that the decoder reads
  // ---------------------------------------------------------------------------------------

  lemma {:induction false} EndScales(counts: seq<byte>, k: nat, l: nat)
    requires k <= l <= |counts|
    ensures End(counts, k) * Pow(2, l - k) <= End(counts, l)
    decreases l
  {
    if k < l {
      EndScales(counts, k, l - 1);
      MulAssociates(2, End(counts, k), Pow(2, l - 1 - k));
    }
  }

  /** Under Kraft's inequality every code fits into its length. */
  lemma CodeFits(counts: seq<byte>, len: nat, rank: nat)
    requires |counts| == MAX_LENGTH && Kraft(counts) && 1 <= len <= MAX_LENGTH && rank < counts[len - 1]
    ensures First(counts, len) + rank < Pow(2, len)
  {
    hide Pow, End;
    EndStep(counts, len);
    EndScales(counts, len, MAX_LENGTH);
    PowAdd(2, len, MAX_LENGTH - len);
    var e, p, q := End(counts, len), Pow(2, len), Pow(2, MAX_LENGTH - len);
    MulGap(q, p, e);
  }

  /** Whatever follows, a code is read as its own symbol and nothing beyond it is consumed. */
  lemma CodeIsRead(counts: seq<byte>, len: nat, rank: nat, rest: seq<bit>)
    requires |counts| == MAX_LENGTH && Kraft(counts) && 1 <= len <= MAX_LENGTH && rank < counts[len - 1]
    ensures ReadCode(counts, CodeBits(counts, len, rank) + rest) == Found(len, SumCounts(counts, len - 1) + rank)
  {
    hide Value, Digits, Kraft, Pow;
    var code, bits := First(counts, len) + rank, CodeBits(counts, len, rank);
    CodeFits(counts, len, rank);
    ValueOfDigits(2, len, code);
    SmallModulo(code, Pow(2, len));
    assert (bits + rest)[..len] == bits;
    ReadFinds(counts, bits + rest, len, rank);
  }

  lemma SmallModulo(a: nat, p: nat)
    requires a < p
    ensures a % p == a
  {
  }

  // ---------------------------------------------------------------------------------------
  // The expanded table
  // ---------------------------------------------------------------------------------------

  datatype TableError = EmptyTable | MoreCountsThanSymbols

  /** The longest length in use, 0 if there is none. */
  function MaxLength(counts: seq<byte>, l: nat): (m: nat)
    requires l <= |counts|
    ensures m <= l && (m > 0 ==> counts[m - 1] != 0) && forall k :: m <= k < l ==> counts[k] == 0
  {
    if l == 0 || counts[l - 1] != 0 then l else MaxLength(counts, l - 1)
  }

  /** The table's entry for what the incremental decoder finds: its length and symbol. */
  function Entry(r: Read, syms: seq<byte>): nat {
    if r.Found? && r.index < |syms| then 256 * r.len + syms[r.index] else 0
  }

  function Window(counts: seq<byte>, m: nat, x: nat): Read
    requires |counts| == MAX_LENGTH
  {
    ReadCode(counts, Digits(2, m, x))
  }

  /** The table over windows of `m` bits: their length, then for every window what the
      incremental decoder finds in it. */
  function Expanded(counts: seq<byte>, syms: seq<byte>, m: nat): (t: seq<nat>)
    requires |counts| == MAX_LENGTH
    ensures |t| == 1 + Pow(2, m) && t[0] == m
    ensures forall y :: 1 <= y < |t| ==> t[y] == Entry(Window(counts, m, y - 1), syms)
  {
    [m] + seq(Pow(2, m), x requires 0 <= x => Entry(Window(counts, m, x), syms))
  }

  function Table(counts: seq<byte>, syms: seq<byte>): Result<seq<nat>, TableError> {
    if |counts| != MAX_LENGTH || MaxLength(counts, MAX_LENGTH) == 0 then Err(EmptyTable)
    else if SumCounts(counts, MAX_LENGTH) > |syms| then Err(MoreCountsThanSymbols)
    else Ok(Expanded(counts, syms, MaxLength(counts, MAX_LENGTH)))
  }

  lemma {:induction false} DigitsTake(m: nat, x: nat, l: nat)
    requires l <= m
    ensures Digits(2, m, x)[..l] == Digits(2, l, x / Pow(2, m - l))
    decreases m
  {
    if l < m {
      var d := Digits(2, m, x);
      DigitsTake(m - 1, x / 2, l);
      assert d[..m - 1] == Digits(2, m - 1, x / 2);
      assert d[..l] == d[..m - 1][..l];
      DivTwice(x, 2, Pow(2, m - 1 - l));
    } else {
      assert Pow(2, 0) == 1;
    }
  }

  lemma DivTwice(x: nat, a: nat, b: nat)
    requires a > 0 && b > 0
    ensures a * b > 0 && x / a / b == x / (a * b)
  {
    MulGap(a, 0, b);
    DivMod(x, a);
    DivMod(x / a, b);
    DivTwiceAt(a, b, x / a / b, x / a % b, x % a);
  }

  lemma DivTwiceAt(a: nat, b: nat, q: nat, r: nat, s: nat)
    requires r < b && s < a && a * b > 0
    ensures (a * (b * q + r) + s) / (a * b) == q
  {
    Regroup(a, b, q, r, s);
    DivUnique(a * (b * q + r) + s, a * b, q, a * r + s);
  }

  lemma Regroup(a: nat, b: nat, q: nat, r: nat, s: nat)
    requires r < b && s < a
    ensures a * (b * q + r) + s == (b * a) * q + (a * r + s) && a * r + s < b * a == a * b
  {
    MulGap(a, r, b);
    MulAssociates(a, b, q);
    MulDistributes(b * q, r, a);
    MulDistributes(b, 0, a);
  }

  /** The windows that a code of length `len` begins. */
  lemma WindowOfCode(counts: seq<byte>, m: nat, x: nat, len: nat, rank: nat)
    requires |counts| == MAX_LENGTH && 1 <= len <= m <= MAX_LENGTH && rank < counts[len - 1]
    requires x < Pow(2, m) && x / Pow(2, m - len) == First(counts, len) + rank
    ensures Window(counts, m, x) == Found(len, SumCounts(counts, len - 1) + rank)
  {
    hide Value, Digits, Pow, ReadCode;
    var code, bits := First(counts, len) + rank, Digits(2, m, x);
    DigitsTake(m, x, len);
    ValueOfDigits(2, len, code);
    Quotient(m, x, len);
    ReadFinds(counts, bits, len, rank);
  }

  lemma Quotient(m: nat, x: nat, l: nat)
    requires l <= m && x < Pow(2, m)
    ensures x / Pow(2, m - l) < Pow(2, l)
    ensures x / Pow(2, m - l) % Pow(2, l) == x / Pow(2, m - l)
  {
    hide Pow;
    PowAdd(2, l, m - l);
    var p, q := Pow(2, m - l), Pow(2, l);
    QuotientBelow(x, p, q);
    SmallModulo(x / p, q);
  }

  lemma QuotientBelow(x: nat, p: nat, q: nat)
    requires p > 0 && x < q * p
    ensures x / p < q
  {
    DivMod(x, p);
    MulGap(p, q, x / p);
    assert p * q == q * p;
  }

  /** The windows past the last code. */
  lemma WindowPastCodes(counts: seq<byte>, m: nat, x: nat)
    requires |counts| == MAX_LENGTH && m <= MAX_LENGTH && End(counts, m) <= x < Pow(2, m)
    ensures !Window(counts, m, x).Found?
  {
    hide Value, Digits, Pow, ReadCode;
    var bits := Digits(2, m, x);
    ValueOfDigits(2, m, x);
    SmallModulo(x, Pow(2, m));
    assert bits[..m] == bits;
    ReadFound(counts, bits, m);
  }

  /** Where the run of one code ends and the next begins. */
  lemma RunStep(counts: seq<byte>, m: nat, len: nat, rank: nat)
    requires |counts| == MAX_LENGTH && 1 <= len <= m <= MAX_LENGTH
    ensures var w := Pow(2, m - len);
            && (First(counts, len) + (rank + 1)) * w == (First(counts, len) + rank) * w + w
            && (First(counts, len) + 0) * w == End(counts, len - 1) * Pow(2, m - (len - 1))
            && (First(counts, len) + counts[len - 1]) * w == End(counts, len) * w
  {
    var w := Pow(2, m - len);
    assert Pow(2, m - (len - 1)) == 2 * w;
    hide Pow;
    MulAssociates(2, End(counts, len - 1), w);
    MulDistributes(First(counts, len) + rank, 1, w);
  }

  lemma InRun(code: nat, w: nat, t: nat)
    requires t < w
    ensures (code * w + t) / w == code
  {
    DivUnique(code * w + t, w, code, t);
  }

  /** The table with the entries below slot `h` written. */
  ghost predicate Filled(t: seq<nat>, counts: seq<byte>, syms: seq<byte>, m: nat, h: nat)
    requires |counts| == MAX_LENGTH
  {
    && |t| == 1 + Pow(2, m) && t[0] == m && 1 <= h <= |t|
    && forall y :: 1 <= y < |t| ==> t[y] == if y < h then Entry(Window(counts, m, y - 1), syms) else 0
  }

  lemma FilledNone(t: seq<nat>, counts: seq<byte>, syms: seq<byte>, m: nat)
    requires |counts| == MAX_LENGTH && |t| == 1 + Pow(2, m) && t[0] == m
    requires forall y :: 1 <= y < |t| ==> t[y] == 0
    ensures Filled(t, counts, syms, m, 1)
  {
  }

  lemma FilledStep(t: seq<nat>, counts: seq<byte>, syms: seq<byte>, m: nat, h: nat, len: nat, rank: nat, i: nat)
    requires |counts| == MAX_LENGTH && 1 <= len <= m <= MAX_LENGTH && rank < counts[len - 1]
    requires Filled(t, counts, syms, m, h) && h < |t|
    requires i < Pow(2, m - len) && h - 1 == (First(counts, len) + rank) * Pow(2, m - len) + i
    requires SumCounts(counts, len - 1) + rank < |syms|
    ensures Filled(t[h := 256 * len + syms[SumCounts(counts, len - 1) + rank]], counts, syms, m, h + 1)
  {
    hide Pow, Window, First, SumCounts;
    InRun(First(counts, len) + rank, Pow(2, m - len), i);
    WindowOfCode(counts, m, h - 1, len, rank);
  }

  lemma FilledAll(t: seq<nat>, counts: seq<byte>, syms: seq<byte>, m: nat, h: nat)
    requires |counts| == MAX_LENGTH && m <= MAX_LENGTH
    requires Filled(t, counts, syms, m, h) && h == 1 + Capped(End(counts, m) * Pow(2, m - m), Pow(2, m))
    ensures t == Expanded(counts, syms, m)
  {
    hide Pow, Window, End, Expanded;
    PowNone();
    forall y | h <= y < |t|
      ensures t[y] == Entry(Window(counts, m, y - 1), syms)
    {
      WindowPastCodes(counts, m, y - 1);
    }
  }

  function Capped(a: nat, most: nat): nat {
    if a <= most then a else most
  }

  lemma CappedStep(a: nat, most: nat)
    ensures Capped(a, most) <= most
    ensures Capped(a, most) < most ==> Capped(a, most) == a && Capped(a + 1, most) == a + 1
    ensures Capped(a, most) == most ==> Capped(a + 1, most) == most
    ensures a == 0 ==> Capped(a, most) == 0
  {
  }

  /** The slots of one code. */
  method FillRun(huff: array<nat>, h0: nat, counts: seq<byte>, ghost syms: seq<byte>, ghost maxl: nat, ln: nat, ghost rank: nat, s: nat, w: nat, ghost start: nat)
    returns (h: nat)
    requires huff.Length > 0
    requires |counts| == MAX_LENGTH && 1 <= ln <= maxl <= MAX_LENGTH && rank < counts[ln - 1]
    requires SumCounts(counts, ln - 1) + rank < |syms| && s == syms[SumCounts(counts, ln - 1) + rank]
    requires Filled(huff[..], counts, syms, maxl, h0) && h0 == 1 + Capped(start, huff.Length - 1)
    requires w == Pow(2, maxl - ln) && start == (First(counts, ln) + rank) * w
    modifies huff
    ensures Filled(huff[..], counts, syms, maxl, h) && h == 1 + Capped(start + w, huff.Length - 1)
  {
    hide Pow, First, Window, SumCounts, Capped, Filled;
    h := h0;
    for t := 0 to w
      invariant h == 1 + Capped(start + t, huff.Length - 1)
      invariant Filled(huff[..], counts, syms, maxl, h)
    {
      CappedStep(start + t, huff.Length - 1);
      if h < huff.Length {
        FilledStep(huff[..], counts, syms, maxl, h, ln, rank, t);
        huff[h] := 256 * ln + s;
        h := h + 1;
      }
    }
  }

  /** Building the expanded table. Once it is full the writes stop, but the symbols are still
      consumed and counted. */
  method MakeDecoderRef(counts: seq<byte>, syms: seq<byte>) returns (r: Result<seq<nat>, TableError>)
    ensures r == Table(counts, syms)
  {
    hide Pow, First, End, Window, Expanded, Filled, SumCounts, MaxLength, Capped;
    if |counts| != 16 {
      return Err(EmptyTable);
    }
    var maxl := 16;
    while maxl > 0 && counts[maxl - 1] == 0
      invariant 0 <= maxl <= 16 && MaxLength(counts, 16) == MaxLength(counts, maxl)
    {
      MaxLengthStep(counts, maxl);
      maxl := maxl - 1;
    }
    MaxLengthStep(counts, maxl);
    if maxl == 0 {
      return Err(EmptyTable);
    }
    CountsPastMax(counts, maxl, 16);
    var nslots := Pow(2, maxl);
    var huff := new nat[1 + nslots](_ => 0);
    huff[0] := maxl;
    var h, si := 1, 0;
    CountsNone(counts);
    FilledNone(huff[..], counts, syms, maxl);
    CappedStep(0, nslots);
    for ln := 1 to maxl + 1
      invariant si == SumCounts(counts, ln - 1) <= |syms|
      invariant h == 1 + Capped(End(counts, ln - 1) * Pow(2, maxl - (ln - 1)), nslots)
      invariant Filled(huff[..], counts, syms, maxl, h)
    {
      RunStep(counts, maxl, ln, 0);
      var w := Pow(2, maxl - ln);
      for rank := 0 to counts[ln - 1]
        invariant si == SumCounts(counts, ln - 1) + rank <= |syms|
        invariant h == 1 + Capped((First(counts, ln) + rank) * w, nslots)
        invariant Filled(huff[..], counts, syms, maxl, h)
      {
        if si >= |syms| {
          CountsStep(counts, ln);
          SumCountsGrow(counts, ln, 16);
          return Err(MoreCountsThanSymbols);
        }
        var s: nat := syms[si];
        si := si + 1;
        h := FillRun(huff, h, counts, syms, maxl, ln, rank, s, w, (First(counts, ln) + rank) * w);
        RunStep(counts, maxl, ln, rank);
      }
      CountsStep(counts, ln);
    }
    FilledAll(huff[..], counts, syms, maxl, h);
    return Ok(huff[..]);
  }

  lemma MaxLengthStep(counts: seq<byte>, l: nat)
    requires l <= |counts|
    ensures MaxLength(counts, l) == if l == 0 || counts[l - 1] != 0 then l else MaxLength(counts, l - 1)
  {
  }

  lemma CountsNone(counts: seq<byte>)
    ensures SumCounts(counts, 0) == 0 && End(counts, 0) == 0
  {
  }

  lemma CountsStep(counts: seq<byte>, l: nat)
    requires 1 <= l <= |counts|
    ensures SumCounts(counts, l) == SumCounts(counts, l - 1) + counts[l - 1]
  {
  }

  lemma PowNone()
    ensures Pow(2, 0) == 1
  {
  }

  lemma {:induction false} CountsPastMax(counts: seq<byte>, m: nat, l: nat)
    requires m <= l <= |counts| && forall k :: m <= k < l ==> counts[k] == 0
    ensures SumCounts(counts, l) == SumCounts(counts, m)
  {
    if m < l {
      CountsPastMax(counts, m, l - 1);
    }
  }

  lemma {:induction false} SumCountsGrow(counts: seq<byte>, k: nat, l: nat)
    requires k <= l <= |counts|
    ensures SumCounts(counts, k) <= SumCounts(counts, l)
    decreases l
  {
    if k < l {
      SumCountsGrow(counts, k, l - 1);
    }
  }

  // ---------------------------------------------------------------------------------------
  // The two decoders agree
  // ---------------------------------------------------------------------------------------

  /** Looking up the first `maxlen` bits of any stream at least that long gives the symbol and the length that
      reading it bit by bit finds; where that finds nothing the entry is 0. No assumption is
      made on the counts: the table may be incomplete or over-subscribed. */
  lemma DecodersAgree(counts: seq<byte>, syms: seq<byte>, bits: seq<bit>)
    requires Table(counts, syms).Ok? && |bits| >= Table(counts, syms).value[0]
    ensures var t, r := Table(counts, syms).value, ReadCode(counts, bits);
            && t[0] <= MAX_LENGTH && 0 <= Value(2, bits[..t[0]]) < |t| - 1
            && (r.Found? ==> && 1 <= r.len <= t[0] && r.index < |syms|
                             && t[1 + Value(2, bits[..t[0]])] == 256 * r.len + syms[r.index])
            && (!r.Found? ==> t[1 + Value(2, bits[..t[0]])] == 0)
  {
    hide Value, Pow, Expanded, ReadCode, End;
    var m, r := MaxLength(counts, MAX_LENGTH), ReadCode(counts, bits);
    var head := bits[..m];
    ValueBound(2, head);
    DigitsOfValue(2, head);
    var t, x := Expanded(counts, syms, m), Value(2, head);
    assert t[1 + x] == Entry(Window(counts, m, x), syms) == Entry(ReadCode(counts, head), syms);
    PrefixDecides(counts, bits, m);
    if r.Found? {
      SumCountsGrow(counts, r.len, MAX_LENGTH);
    }
  }

  /** Bits beyond the longest code do not matter. */
  lemma PrefixDecides(counts: seq<byte>, bits: seq<bit>, m: nat)
    requires |counts| == MAX_LENGTH && m <= MAX_LENGTH && m <= |bits|
    requires forall k :: m <= k < |counts| ==> counts[k] == 0
    ensures var r, q := ReadCode(counts, bits), ReadCode(counts, bits[..m]);
            && r.Found? == q.Found? && (r.Found? ==> r == q && 1 <= r.len <= m && r.index < SumCounts(counts, r.len))
  {
    hide Value, Pow, ReadCode, End;
    var head, r, q := bits[..m], ReadCode(counts, bits), ReadCode(counts, bits[..m]);
    EndNone(counts);
    NoBits(bits);
    NoBits(head);
    ReadFound(counts, bits, 0);
    ReadFound(counts, head, 0);
    if r.Found? {
      NoneLonger(counts, m, r.len, r.index);
      FoundAlike(counts, bits, head, r.len, r.index);
    }
    if q.Found? {
      FoundAlike(counts, head, bits, q.len, q.index);
    }
  }

  lemma FoundAlike(counts: seq<byte>, a: seq<bit>, b: seq<bit>, len: nat, index: nat)
    requires |counts| == MAX_LENGTH && 1 <= len <= MAX_LENGTH && len <= |a| && len <= |b| && a[..len] == b[..len]
    requires SumCounts(counts, len - 1) <= index < SumCounts(counts, len)
    requires Value(2, a[..len]) == First(counts, len) + index - SumCounts(counts, len - 1)
    ensures ReadCode(counts, b) == Found(len, index)
  {
    hide Value, ReadCode, End;
    RankBelow(counts, len, index);
    ReadFinds(counts, b, len, index - SumCounts(counts, len - 1));
  }

  lemma RankBelow(counts: seq<byte>, len: nat, index: nat)
    requires 1 <= len <= |counts| && SumCounts(counts, len - 1) <= index < SumCounts(counts, len)
    ensures index - SumCounts(counts, len - 1) < counts[len - 1]
  {
  }

  lemma NoneLonger(counts: seq<byte>, m: nat, len: nat, index: nat)
    requires 1 <= len <= |counts| && SumCounts(counts, len - 1) <= index < SumCounts(counts, len)
    requires forall k :: m <= k < |counts| ==> counts[k] == 0
    ensures len <= m
  {
    RankBelow(counts, len, index);
  }
}
