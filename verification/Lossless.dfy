/** The lossless (SOF3) decoder of tools/ljpeg_decode.py: its bit reader, the first-code/rank
    Huffman decoder as it runs, the seven predictors, and the interleaved sample loop. */
module Lossless {
  import opened Prelude
  import opened Positional
  import opened Huffman
  import opened Scan
  import opened ScanInverse
  import BitReader

  /** The exceptions: an index past the data or past the symbols, no code within 16 bits, and
      a predictor that does not exist. */
  datatype LosslessError = IndexError | CorruptStream | BadPredictor

  // ---------------------------------------------------------------------------------------
  // Bits
  // ---------------------------------------------------------------------------------------

  /** The bytes the bits are taken from: 00 after FF is dropped; nothing else is special. */
  function Destuff(data: seq<byte>): seq<byte> {
    if data == [] then []
    else if data[0] == 0xFF && |data| > 1 && data[1] == 0 then [0xFF] + Destuff(data[2..])
    else [data[0]] + Destuff(data[1..])
  }

  function Take(bits: seq<bit>, n: nat): Result<(nat, seq<bit>), LosslessError> {
    if |bits| < n then Err(IndexError) else Ok((Value(2, bits[..n]), bits[n..]))
  }

  function RestOf(data: seq<byte>, pos: nat): seq<bit>
    requires pos <= |data|
  {
    BitReader.ByteBits(Destuff(data[pos..]))
  }

  /** What is left: the `n` low bits of the accumulator, then those of the bytes not yet taken. */
  function LeftOf(data: seq<byte>, pos: nat, acc: nat, n: nat): seq<bit>
    requires pos <= |data|
  {
    Digits(2, n, acc) + RestOf(data, pos)
  }

  lemma TakesByte(data: seq<byte>, pos: nat, acc: nat, n: nat)
    requires pos < |data|
    ensures var next := if data[pos] == 0xFF && pos + 1 < |data| && data[pos + 1] == 0 then pos + 2 else pos + 1;
            LeftOf(data, next, acc * 256 + data[pos], n + 8) == LeftOf(data, pos, acc, n)
  {
    hide Digits, BitReader.ByteBits, Pow;
    var c := data[pos];
    var next := if c == 0xFF && pos + 1 < |data| && data[pos + 1] == 0 then pos + 2 else pos + 1;
    BitReader.Pow2();
    BitReader.DigitsConcat(n, 8, acc, c);
    assert data[pos..][next - pos..] == data[next..];
    assert Destuff(data[pos..]) == [c] + Destuff(data[next..]);
    BitReader.ByteBitsCons(c, Destuff(data[next..]));
    BitReader.BufferGrows(Digits(2, n, acc), Digits(2, 8, c), RestOf(data, next));
  }

  lemma TakesNothing(data: seq<byte>, acc: nat, n: nat)
    ensures |LeftOf(data, |data|, acc, n)| == n
  {
  }

  lemma TakesBits(data: seq<byte>, pos: nat, acc: nat, held: nat, n: nat)
    requires pos <= |data| && n <= held
    ensures Take(LeftOf(data, pos, acc, held), n) == Ok((acc / Pow(2, held - n) % Pow(2, n), LeftOf(data, pos, acc, held - n)))
  {
    hide Digits, Pow, Value, RestOf;
    var bits := LeftOf(data, pos, acc, held);
    assert bits[..n] == Digits(2, held, acc)[..n];
    DigitsTake(held, acc, n);
    ValueOfDigits(2, n, acc / Pow(2, held - n));
    BitReader.DigitsDrop(held, acc, n);
    assert bits[n..] == Digits(2, held, acc)[n..] + RestOf(data, pos);
  }

  /** The reader: an accumulator without a width. */
  class PlainReader {
    const data: seq<byte>
    var pos: nat
    var acc: nat
    var nbits: nat

    ghost predicate Valid()
      reads this
    {
      pos <= |data|
    }

    ghost function Left(): seq<bit>
      reads this
      requires Valid()
    {
      LeftOf(data, pos, acc, nbits)
    }

    constructor (data: seq<byte>, start: nat)
      requires start <= |data|
      ensures Valid() && Left() == RestOf(data, start)
    {
      this.data := data;
      pos, acc, nbits := start, 0, 0;
      new;
      assert Digits(2, 0, 0) == [];
      assert [] + RestOf(data, start) == RestOf(data, start);
    }

    method Bits(n: nat) returns (r: Result<nat, LosslessError>)
      requires Valid()
      modifies this
      ensures match Take(old(Left()), n)
              case Err(e) => r == Err(e)
              case Ok(t) => r == Ok(t.0) && Valid() && Left() == t.1
    {
      hide LeftOf, Pow, Value;
      while nbits < n
        invariant Valid() && Left() == old(Left())
        decreases n - nbits
      {
        if pos >= |data| {
          TakesNothing(data, acc, nbits);
          return Err(IndexError);
        }
        TakesByte(data, pos, acc, nbits);
        acc := acc * 256 + data[pos];
        pos := pos + 1;
        nbits := nbits + 8;
        if data[pos - 1] == 0xFF && pos < |data| && data[pos] == 0 {
          pos := pos + 1;
        }
      }
      TakesBits(data, pos, acc, nbits, n);
      var v := acc / Pow(2, nbits - n) % Pow(2, n);
      nbits := nbits - n;
      return Ok(v);
    }
  }

  // ---------------------------------------------------------------------------------------
  // Huffman symbols and differences
  // ---------------------------------------------------------------------------------------

  lemma FoundWithin(counts: seq<byte>, bits: seq<bit>)
    requires |counts| == MAX_LENGTH
    ensures ReadCode(counts, bits).Found? ==> ReadCode(counts, bits).len <= |bits|
  {
    hide Value, ReadCode, End;
    EndNone(counts);
    NoBits(bits);
    ReadFound(counts, bits, 0);
  }

  /** What the decoder makes of the code it read. */
  function SymbolOf(r: Read, vals: seq<byte>): Result<nat, LosslessError> {
    match r
    case Found(_, index) => if index < |vals| then Ok(vals[index]) else Err(IndexError)
    case NoCode => Err(CorruptStream)
    case OutOfBits => Err(IndexError)
  }

  function ReadSymbol(bits: seq<bit>, t: HuffTable): Result<(nat, seq<bit>), LosslessError>
    requires |t.counts| == MAX_LENGTH
  {
    var r := ReadCode(t.counts, bits);
    FoundWithin(t.counts, bits);
    var s :- SymbolOf(r, t.syms);
    Ok((s, bits[r.len..]))
  }

  method HuffDecode(br: PlainReader, counts: seq<byte>, vals: seq<byte>) returns (r: Result<nat, LosslessError>)
    requires br.Valid() && |counts| == MAX_LENGTH
    modifies br
    ensures match ReadSymbol(old(br.Left()), HuffTable(counts, vals))
            case Err(e) => r == Err(e)
            case Ok(s) => r == Ok(s.0) && br.Valid() && br.Left() == s.1
  {
    hide SumCounts, LeftOf, ReadFrom;
    ghost var bits := br.Left();
    FoundWithin(counts, bits);
    var v: nat, first: nat := 0, 0;
    CountsNone(counts);
    for k := 0 to 16
      invariant br.Valid() && k <= |bits| && br.Left() == bits[k..]
      invariant ReadCode(counts, bits) == ReadFrom(counts, bits[k..], k, v, first)
    {
      ReadFromStep(counts, bits, k, v, first);
      OneBit(bits[k..]);
      var b := br.Bits(1);
      if b.Err? {
        return Err(b.error);
      }
      v := v * 2 + b.value;
      var rank := v - first;
      if 0 <= rank < counts[k] {
        var index := SumCounts(counts, k) + rank;
        if index >= |vals| {
          return Err(IndexError);
        }
        return Ok(vals[index]);
      }
      first := (first + counts[k]) * 2;
    }
    ReadFromEnd(counts, bits[16..], v, first);
    return Err(CorruptStream);
  }

  lemma OneBit(bits: seq<bit>)
    ensures bits != [] ==> Take(bits, 1) == Ok((bits[0], bits[1..]))
    ensures bits == [] ==> Take(bits, 1) == Err(IndexError)
  {
    if bits != [] {
      assert bits[..1] == [bits[0]];
      ValueOne(2, bits[0]);
    }
  }

  lemma ReadFromStep(counts: seq<byte>, bits: seq<bit>, k: nat, v: nat, first: nat)
    requires k < MAX_LENGTH == |counts| && k <= |bits|
    ensures var rest := bits[k..];
            ReadFrom(counts, rest, k, v, first)
            == if k == |bits| then OutOfBits
               else if 0 <= v * 2 + bits[k] - first < counts[k] then Found(k + 1, SumCounts(counts, k) + (v * 2 + bits[k] - first))
               else ReadFrom(counts, bits[k + 1..], k + 1, v * 2 + bits[k], (first + counts[k]) * 2)
  {
    hide SumCounts;
    if k < |bits| {
      assert bits[k..][1..] == bits[k + 1..];
    }
  }

  lemma ReadFromEnd(counts: seq<byte>, bits: seq<bit>, v: nat, first: nat)
    requires |counts| == MAX_LENGTH
    ensures ReadFrom(counts, bits, MAX_LENGTH, v, first) == NoCode
  {
  }

  /** The difference at one sample: category 0 is 0, category 16 is -32768 and has no bits. */
  function ReadDifference(bits: seq<bit>, t: HuffTable): Result<(int, seq<bit>), LosslessError>
    requires |t.counts| == MAX_LENGTH
  {
    var s :- ReadSymbol(bits, t);
    if s.0 == 0 then Ok((0, s.1))
    else if s.0 == 16 then Ok((-32768, s.1))
    else
      var d :- Take(s.1, s.0);
      Ok((Extend(s.0, d.0), d.1))
  }

  /** The stand-alone difference reader: category 16 has 16 bits here. */
  function ReadDcValue(bits: seq<bit>, t: HuffTable): Result<(int, seq<bit>), LosslessError>
    requires |t.counts| == MAX_LENGTH
  {
    var s :- ReadSymbol(bits, t);
    if s.0 == 0 then Ok((0, s.1))
    else
      var d :- Take(s.1, s.0);
      Ok((Extend(s.0, d.0), d.1))
  }

  method DcValue(br: PlainReader, counts: seq<byte>, vals: seq<byte>) returns (r: Result<int, LosslessError>)
    requires br.Valid() && |counts| == MAX_LENGTH
    modifies br
    ensures match ReadDcValue(old(br.Left()), HuffTable(counts, vals))
            case Err(e) => r == Err(e)
            case Ok(d) => r == Ok(d.0) && br.Valid() && br.Left() == d.1
  {
    hide LeftOf, ReadCode, Value, Pow;
    var cat := HuffDecode(br, counts, vals);
    if cat.Err? {
      return Err(cat.error);
    }
    if cat.value == 0 {
      return Ok(0);
    }
    var v := br.Bits(cat.value);
    if v.Err? {
      return Err(v.error);
    }
    if v.value < Pow(2, cat.value - 1) {
      return Ok(v.value - (Pow(2, cat.value) - 1));
    }
    return Ok(v.value);
  }

  /** The two difference readers differ on category 16 and nowhere else: there the scan loop
      gives -32768 without a magnitude and the other one never gives that value. */
  lemma DifferenceReadersAgree(bits: seq<bit>, t: HuffTable)
    requires |t.counts| == MAX_LENGTH
    ensures ReadDcValue(bits, t) == ReadDifference(bits, t)
            <==> !(ReadSymbol(bits, t).Ok? && ReadSymbol(bits, t).value.0 == 16)
  {
  }

  method DecodeDifference(br: PlainReader, t: HuffTable) returns (r: Result<int, LosslessError>)
    requires br.Valid() && |t.counts| == MAX_LENGTH
    modifies br
    ensures match ReadDifference(old(br.Left()), t)
            case Err(e) => r == Err(e)
            case Ok(d) => r == Ok(d.0) && br.Valid() && br.Left() == d.1
  {
    hide LeftOf, ReadCode, Value, Pow;
    var cat := HuffDecode(br, t.counts, t.syms);
    if cat.Err? {
      return Err(cat.error);
    }
    if cat.value == 0 {
      return Ok(0);
    }
    if cat.value == 16 {
      return Ok(-32768);
    }
    var d := br.Bits(cat.value);
    if d.Err? {
      return Err(d.error);
    }
    if d.value < Pow(2, cat.value - 1) {
      return Ok(d.value - (Pow(2, cat.value) - 1));
    }
    return Ok(d.value);
  }

  // ---------------------------------------------------------------------------------------
  // Prediction
  // ---------------------------------------------------------------------------------------

  /** The predictors of Table H.1 of ITU-T T.81 from the left, upper and diagonal neighbours. */
  function Predictor(psv: int, a: int, b: int, c: int): Result<int, LosslessError> {
    if psv == 1 then Ok(a)
    else if psv == 2 then Ok(b)
    else if psv == 3 then Ok(c)
    else if psv == 4 then Ok(a + b - c)
    else if psv == 5 then Ok(a + (b - c) / 2)
    else if psv == 6 then Ok(b + (a - c) / 2)
    else if psv == 7 then Ok((a + b) / 2)
    else Err(BadPredictor)
  }

  /** A pixel is one sample of every component, a row its pixels, an image its rows. */
  type Pixel = seq<int>
  type Row = seq<Pixel>

  function Sample(rows: seq<Row>, y: nat, x: nat, ci: nat): int {
    if y < |rows| && x < |rows[y]| && ci < |rows[y][x]| then rows[y][x][ci] else 0
  }

  /** The prediction for component `ci` of the pixel after `row`, in the row after `rows`. */
  function Predicted(rows: seq<Row>, row: Row, ci: nat, psv: int, edge: int): Result<int, LosslessError> {
    var y, x, all := |rows|, |row|, rows + [row];
    if y == 0 && x == 0 then Ok(edge)
    else if y == 0 then Ok(Sample(all, 0, x - 1, ci))
    else if x == 0 then Ok(Sample(all, y - 1, 0, ci))
    else Predictor(psv, Sample(all, y, x - 1, ci), Sample(all, y - 1, x, ci), Sample(all, y - 1, x - 1, ci))
  }

  // ---------------------------------------------------------------------------------------
  // Decoding
  // ---------------------------------------------------------------------------------------

  datatype Setup = Setup(w: nat, h: nat, tables: seq<HuffTable>, psv: int, edge: int) {
    predicate Valid() {
      forall k :: 0 <= k < |tables| ==> |tables[k].counts| == MAX_LENGTH
    }
  }

  /** The rest of one pixel, component by component. */
  function ReadPixel(bits: seq<bit>, s: Setup, rows: seq<Row>, row: Row, pixel: Pixel): Result<(Pixel, seq<bit>), LosslessError>
    requires s.Valid() && |pixel| <= |s.tables|
    decreases |s.tables| - |pixel|
  {
    if |pixel| == |s.tables| then Ok((pixel, bits))
    else
      var d :- ReadDifference(bits, s.tables[|pixel|]);
      var pred :- Predicted(rows, row, |pixel|, s.psv, s.edge);
      ReadPixel(d.1, s, rows, row, pixel + [pred + d.0])
  }

  function ReadRow(bits: seq<bit>, s: Setup, rows: seq<Row>, row: Row): Result<(Row, seq<bit>), LosslessError>
    requires s.Valid()
    decreases s.w - |row|
  {
    if |row| >= s.w then Ok((row, bits))
    else
      var p :- ReadPixel(bits, s, rows, row, []);
      ReadRow(p.1, s, rows, row + [p.0])
  }

  function ReadImage(bits: seq<bit>, s: Setup, rows: seq<Row>): Result<(seq<Row>, seq<bit>), LosslessError>
    requires s.Valid()
    decreases s.h - |rows|
  {
    if |rows| >= s.h then Ok((rows, bits))
    else
      var r :- ReadRow(bits, s, rows, []);
      ReadImage(r.1, s, rows + [r.0])
  }

  /** The samples that are known, by component, row and column. */
  ghost predicate Holds(comps: array3<int>, rows: seq<Row>)
    reads comps
  {
    forall ci, y, x :: 0 <= ci < comps.Length0 && 0 <= y < comps.Length1 && 0 <= x < comps.Length2
                         && y < |rows| && x < |rows[y]| && ci < |rows[y][x]| ==>
                         comps[ci, y, x] == rows[y][x][ci]
  }

  ghost predicate Rectangular(rows: seq<Row>, w: nat, nf: nat) {
    forall y :: 0 <= y < |rows| ==> FullRow(rows[y], nf) && |rows[y]| == w
  }

  ghost predicate FullRow(row: Row, nf: nat) {
    forall x :: 0 <= x < |row| ==> |row[x]| == nf
  }

  method PredictAt(comps: array3<int>, s: Setup, y: nat, x: nat, ci: nat, ghost rows: seq<Row>, ghost row: Row, ghost pixel: Pixel)
    returns (r: Result<int, LosslessError>)
    requires y == |rows| && x == |row| && y < comps.Length1 && x < comps.Length2 && ci < comps.Length0
    requires Rectangular(rows, comps.Length2, comps.Length0) && FullRow(row, comps.Length0)
    requires Holds(comps, rows + [row + [pixel]])
    ensures r == Predicted(rows, row, ci, s.psv, s.edge)
  {
    var all := rows + [row];
    var known := rows + [row + [pixel]];
    assert forall i :: 0 <= i < y ==> all[i] == known[i] == rows[i];
    assert forall i :: 0 <= i < x ==> all[y][i] == known[y][i];
    if y == 0 && x == 0 {
      return Ok(s.edge);
    }
    if y == 0 {
      assert comps[ci, 0, x - 1] == known[0][x - 1][ci];
      return Ok(comps[ci, 0, x - 1]);
    }
    if x == 0 {
      assert comps[ci, y - 1, 0] == known[y - 1][0][ci];
      return Ok(comps[ci, y - 1, 0]);
    }
    assert comps[ci, y, x - 1] == known[y][x - 1][ci];
    assert comps[ci, y - 1, x] == known[y - 1][x][ci];
    assert comps[ci, y - 1, x - 1] == known[y - 1][x - 1][ci];
    return Predictor(s.psv, comps[ci, y, x - 1], comps[ci, y - 1, x], comps[ci, y - 1, x - 1]);
  }

  /** Finishing the pixel, then its row, then the image. */
  function PixelThen(bits: seq<bit>, s: Setup, rows: seq<Row>, row: Row, pixel: Pixel): Result<(seq<Row>, seq<bit>), LosslessError>
    requires s.Valid() && |pixel| <= |s.tables|
  {
    var p :- ReadPixel(bits, s, rows, row, pixel);
    RowThen(p.1, s, rows, row + [p.0])
  }

  function RowThen(bits: seq<bit>, s: Setup, rows: seq<Row>, row: Row): Result<(seq<Row>, seq<bit>), LosslessError>
    requires s.Valid()
  {
    var r :- ReadRow(bits, s, rows, row);
    ReadImage(r.1, s, rows + [r.0])
  }

  lemma PixelThenStep(bits: seq<bit>, s: Setup, rows: seq<Row>, row: Row, pixel: Pixel)
    requires s.Valid() && |pixel| < |s.tables|
    ensures var d, pred := ReadDifference(bits, s.tables[|pixel|]), Predicted(rows, row, |pixel|, s.psv, s.edge);
            PixelThen(bits, s, rows, row, pixel)
            == if d.Err? then Err(d.error)
               else if pred.Err? then Err(pred.error)
               else PixelThen(d.value.1, s, rows, row, pixel + [pred.value + d.value.0])
  {
    hide ReadDifference, Predicted, RowThen;
  }

  lemma PixelThenEnd(bits: seq<bit>, s: Setup, rows: seq<Row>, row: Row, pixel: Pixel)
    requires s.Valid() && |pixel| == |s.tables|
    ensures PixelThen(bits, s, rows, row, pixel) == RowThen(bits, s, rows, row + [pixel])
  {
    hide RowThen;
  }

  lemma RowThenStep(bits: seq<bit>, s: Setup, rows: seq<Row>, row: Row)
    requires s.Valid()
    ensures if |row| < s.w then RowThen(bits, s, rows, row) == PixelThen(bits, s, rows, row, [])
            else RowThen(bits, s, rows, row) == ReadImage(bits, s, rows + [row])
  {
    hide ReadPixel, ReadImage;
  }

  lemma ImageStep(bits: seq<bit>, s: Setup, rows: seq<Row>)
    requires s.Valid()
    ensures if |rows| < s.h then ReadImage(bits, s, rows) == RowThen(bits, s, rows, [])
            else ReadImage(bits, s, rows) == Ok((rows, bits))
  {
    hide ReadRow;
  }

  lemma HoldsNone(comps: array3<int>, rows: seq<Row>, row: Row)
    ensures Holds(comps, [])
    ensures Holds(comps, rows) ==> Holds(comps, rows + [[]])
    ensures Holds(comps, rows + [row]) ==> Holds(comps, rows + [row + [[]]])
  {
    if Holds(comps, rows + [row]) {
      var before, after := rows + [row], rows + [row + [[]]];
      forall ci, y, x | 0 <= ci < comps.Length0 && 0 <= y < comps.Length1 && 0 <= x < comps.Length2
                        && y < |after| && x < |after[y]| && ci < |after[y][x]|
        ensures comps[ci, y, x] == after[y][x][ci]
      {
        assert y < |before| && x < |before[y]| && before[y][x] == after[y][x];
      }
    }
  }

  method SetSample(comps: array3<int>, ci: nat, y: nat, x: nat, value: int, ghost rows: seq<Row>, ghost row: Row, ghost pixel: Pixel)
    requires y == |rows| && x == |row| && ci == |pixel| && y < comps.Length1 && x < comps.Length2 && ci < comps.Length0
    requires Holds(comps, rows + [row + [pixel]])
    modifies comps
    ensures Holds(comps, rows + [row + [pixel + [value]]])
  {
    ghost var before, after := rows + [row + [pixel]], rows + [row + [pixel + [value]]];
    assert forall i :: 0 <= i < y ==> before[i] == after[i];
    assert forall i :: 0 <= i < x ==> before[y][i] == after[y][i];
    assert forall i :: 0 <= i < ci ==> before[y][x][i] == after[y][x][i];
    comps[ci, y, x] := value;
  }

  /** Row by row, column by column, component by component. */
  method DecodeStream(data: seq<byte>, start: nat, s: Setup) returns (r: Result<array3<int>, LosslessError>)
    requires s.Valid() && start <= |data|
    ensures match ReadImage(RestOf(data, start), s, [])
            case Err(e) => r == Err(e)
            case Ok(image) =>
              && r.Ok? && r.value.Length0 == |s.tables| && r.value.Length1 == s.h && r.value.Length2 == s.w
              && Rectangular(image.0, s.w, |s.tables|) && |image.0| == s.h
              && Holds(r.value, image.0)
  {
    hide ReadDifference, Predicted, LeftOf, RestOf, ReadImage, RowThen, PixelThen, Holds;
    var nf := |s.tables|;
    var br := new PlainReader(data, start);
    var comps := new int[nf, s.h, s.w]((_, _, _) => 0);
    ghost var rows: seq<Row> := [];
    ghost var spec := ReadImage(br.Left(), s, []);
    HoldsNone(comps, [], []);
    for y := 0 to s.h
      invariant br.Valid() && fresh(br) && fresh(comps)
      invariant |rows| == y && Rectangular(rows, s.w, nf) && Holds(comps, rows)
      invariant ReadImage(br.Left(), s, rows) == spec
    {
      ghost var row: Row := [];
      HoldsNone(comps, rows, []);
      ImageStep(br.Left(), s, rows);
      for x := 0 to s.w
        invariant br.Valid()
        invariant |row| == x && FullRow(row, nf) && Holds(comps, rows + [row])
        invariant RowThen(br.Left(), s, rows, row) == spec
      {
        ghost var pixel: Pixel := [];
        HoldsNone(comps, rows, row);
        RowThenStep(br.Left(), s, rows, row);
        for ci := 0 to nf
          invariant br.Valid()
          invariant |pixel| == ci && Holds(comps, rows + [row + [pixel]])
          invariant PixelThen(br.Left(), s, rows, row, pixel) == spec
        {
          PixelThenStep(br.Left(), s, rows, row, pixel);
          var d := DecodeDifference(br, s.tables[ci]);
          if d.Err? {
            return Err(d.error);
          }
          var pred := PredictAt(comps, s, y, x, ci, rows, row, pixel);
          if pred.Err? {
            return Err(pred.error);
          }
          SetSample(comps, ci, y, x, pred.value + d.value, rows, row, pixel);
          pixel := pixel + [pred.value + d.value];
        }
        PixelThenEnd(br.Left(), s, rows, row, pixel);
        row := row + [pixel];
      }
      RowThenStep(br.Left(), s, rows, row);
      rows := rows + [row];
    }
    ImageStep(br.Left(), s, rows);
    return Ok(comps);
  }
}
