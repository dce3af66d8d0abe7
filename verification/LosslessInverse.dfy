/** Lossless decoding inverts prediction and coding (tools/ljpeg_decode.py, Annex H of ITU-T
    T.81): an image comes back exactly where its differences fit 16 bits, which depends on the
    precision and the predictor. */
module LosslessInverse {
  import opened Prelude
  import opened Positional
  import opened Huffman
  import opened Scan
  import opened ScanInverse
  import opened Lossless
  import opened Prediction
  import BitReader

  // ---------------------------------------------------------------------------------------
  // Coding
  // ---------------------------------------------------------------------------------------

  ghost predicate Usable(s: Setup) {
    forall k :: 0 <= k < |s.tables| ==> s.tables[k].Valid()
  }

  lemma UsableIsValid(s: Setup)
    requires Usable(s)
    ensures s.Valid()
  {
    hide Kraft, Table;
  }

  /** The difference at a place of component `ci`, where there is a prediction. */
  function Difference(s: Setup, image: seq<Row>, y: nat, x: nat, ci: nat): Option<int> {
    var f := Component(image, ci);
    match Forecast(s.psv, s.edge, f, y, x)
    case None => None
    case Some(v) => Some(f(y, x) - v)
  }

  /** Differences are coded modulo 2^16 (section H.1.2.1). */
  function Wrapped(d: int): int {
    (d + 32768) % 65536 - 32768
  }

  predicate Fits16(d: int) {
    -32768 <= d <= 32767
  }

  lemma WrappedOnlyOutside(d: int)
    ensures Wrapped(d) == d <==> Fits16(d)
  {
  }

  /** Every difference of a pixel, row, image has a code. */
  ghost predicate SampleCodable(s: Setup, image: seq<Row>, y: nat, x: nat, ci: nat)
    requires Usable(s) && ci < |s.tables|
  {
    var d := Difference(s, image, y, x, ci);
    d.Some? && DiffCodable(s.tables[ci], Wrapped(d.value))
  }

  ghost predicate PixelCodable(s: Setup, image: seq<Row>, y: nat, x: nat)
    requires Usable(s) && y < |image| && x < |image[y]|
  {
    |image[y][x]| == |s.tables| && forall ci :: 0 <= ci < |s.tables| ==> SampleCodable(s, image, y, x, ci)
  }

  ghost predicate RowCodable(s: Setup, image: seq<Row>, y: nat)
    requires Usable(s) && y < |image|
  {
    |image[y]| == s.w && forall x :: 0 <= x < |image[y]| ==> PixelCodable(s, image, y, x)
  }

  ghost predicate ImageCodable(s: Setup, image: seq<Row>)
    requires Usable(s)
  {
    |image| == s.h && forall y :: 0 <= y < |image| ==> RowCodable(s, image, y)
  }

  /** Row by row, pixel by pixel, component by component. */
  ghost function CodePixel(s: Setup, image: seq<Row>, y: nat, x: nat, ci: nat): seq<bit>
    requires Usable(s) && y < |image| && x < |image[y]| && PixelCodable(s, image, y, x) && ci <= |s.tables|
    decreases |s.tables| - ci
  {
    if ci == |s.tables| then []
    else
      assert SampleCodable(s, image, y, x, ci);
      CodeDiff(s.tables[ci], Wrapped(Difference(s, image, y, x, ci).value)) + CodePixel(s, image, y, x, ci + 1)
  }

  ghost function CodeRow(s: Setup, image: seq<Row>, y: nat, x: nat): seq<bit>
    requires Usable(s) && y < |image| && RowCodable(s, image, y) && x <= |image[y]|
    decreases |image[y]| - x
  {
    if x == |image[y]| then [] else CodePixel(s, image, y, x, 0) + CodeRow(s, image, y, x + 1)
  }

  ghost function CodeImage(s: Setup, image: seq<Row>, y: nat): seq<bit>
    requires Usable(s) && ImageCodable(s, image) && y <= |image|
    decreases |image| - y
  {
    if y == |image| then [] else CodeRow(s, image, y, 0) + CodeImage(s, image, y + 1)
  }

  // ---------------------------------------------------------------------------------------
  // Reading back
  // ---------------------------------------------------------------------------------------

  lemma SymbolBack(t: HuffTable, s: nat, rest: seq<bit>)
    requires t.Valid() && t.Has(s)
    ensures ReadSymbol(SymbolBits(t, s) + rest, t) == Ok((s, rest))
  {
    hide Value, Pow, Digits, ReadCode, Kraft, SumCounts, LengthOf, First;
    var k := IndexOf(t, s);
    var len := LengthOf(t.counts, k, MAX_LENGTH);
    RankBelow(t.counts, len, k);
    CodeIsRead(t.counts, len, k - SumCounts(t.counts, len - 1), rest);
    assert |SymbolBits(t, s)| == len;
    assert (SymbolBits(t, s) + rest)[len..] == rest;
  }

  lemma TakeBack(bits: seq<bit>, rest: seq<bit>)
    ensures Take(bits + rest, |bits|) == Ok((Value(2, bits), rest))
  {
    hide Value;
    assert (bits + rest)[..|bits|] == bits && (bits + rest)[|bits|..] == rest;
  }

  lemma DifferenceBack(t: HuffTable, diff: int, rest: seq<bit>)
    requires t.Valid() && DiffCodable(t, diff)
    ensures ReadDifference(CodeDiff(t, diff) + rest, t) == Ok((diff, rest))
  {
    hide Category, Magnitude, Extend, ReadSymbol, Take, Kraft, Table, SymbolBits, Value;
    if diff == -32768 {
      SymbolBack(t, 16, rest);
    } else {
      var k, bits := Category(Abs(diff)), Magnitude(diff);
      Category15(Abs(diff));
      assert (SymbolBits(t, k) + bits) + rest == SymbolBits(t, k) + (bits + rest);
      SymbolBack(t, k, bits + rest);
      TakeBack(bits, rest);
      ExtendMagnitude(diff);
      if k == 0 {
        assert bits + rest == rest;
        CategoryZero(diff);
      }
    }
  }

  lemma CategoryZero(v: int)
    requires Category(Abs(v)) == 0
    ensures v == 0
  {
  }

  /** The stand-alone reader gives back every coded difference but that of category 16, after
      which it takes 16 bits more. */
  lemma DcValueBack(t: HuffTable, diff: int, rest: seq<bit>)
    requires t.Valid() && DiffCodable(t, diff)
    ensures ReadDcValue(CodeDiff(t, diff) + rest, t) == Ok((diff, rest)) <==> diff != -32768
  {
    hide Category, Magnitude, Extend, ReadSymbol, Take, Kraft, Table, SymbolBits, Value;
    if diff == -32768 {
      SymbolBack(t, 16, rest);
      TakeShortens(rest, 16);
    } else {
      var k, bits := Category(Abs(diff)), Magnitude(diff);
      Category15(Abs(diff));
      assert (SymbolBits(t, k) + bits) + rest == SymbolBits(t, k) + (bits + rest);
      SymbolBack(t, k, bits + rest);
      DifferenceBack(t, diff, rest);
      DifferenceReadersAgree(CodeDiff(t, diff) + rest, t);
    }
  }

  lemma TakeShortens(bits: seq<bit>, n: nat)
    ensures Take(bits, n).Ok? ==> |Take(bits, n).value.1| == |bits| - n
  {
  }

  // ---------------------------------------------------------------------------------------
  // Where the decoder inverts the coder
  // ---------------------------------------------------------------------------------------

  /** The difference at a sample fits 16 bits, so that it was coded as it is. */
  predicate SampleExact(s: Setup, image: seq<Row>, y: nat, x: nat, ci: nat) {
    var d := Difference(s, image, y, x, ci);
    d.Some? && Fits16(d.value)
  }

  /** So do all differences of a pixel, row, image from some place on. */
  predicate PixelExact(s: Setup, image: seq<Row>, y: nat, x: nat, from: nat) {
    forall ci :: from <= ci < |s.tables| ==> SampleExact(s, image, y, x, ci)
  }

  predicate RowExact(s: Setup, image: seq<Row>, y: nat, from: nat)
    requires y < |image|
  {
    forall x :: from <= x < |image[y]| ==> PixelExact(s, image, y, x, 0)
  }

  predicate ImageExact(s: Setup, image: seq<Row>, from: nat) {
    forall y :: from <= y < |image| ==> RowExact(s, image, y, 0)
  }

  /** Whether there is a prediction depends on the place alone. */
  lemma PredictionExists(image: seq<Row>, y: nat, x: nat, rows: seq<Row>, row: Row, ci: nat, psv: int, edge: int)
    requires |rows| == y && |row| == x && Forecast(psv, edge, Component(image, ci), y, x).Some?
    ensures Predicted(rows, row, ci, psv, edge).Ok?
  {
    hide Component, Sample, Halved;
  }

  /** What is read has come back so far. */
  predicate SoFar(image: seq<Row>, y: nat, x: nat, rows: seq<Row>, row: Row)
    requires y < |image| && x <= |image[y]|
  {
    rows == image[..y] && row == image[y][..x]
  }

  lemma SampleBack(s: Setup, image: seq<Row>, y: nat, x: nat, ci: nat, rows: seq<Row>, row: Row)
    requires y < |image| && x < |image[y]| && ci < |image[y][x]| && SoFar(image, y, x, rows, row)
    requires Difference(s, image, y, x, ci).Some?
    ensures Predicted(rows, row, ci, s.psv, s.edge).Ok?
    ensures Predicted(rows, row, ci, s.psv, s.edge).value + Wrapped(Difference(s, image, y, x, ci).value) == image[y][x][ci]
            <==> SampleExact(s, image, y, x, ci)
  {
    hide Predicted, Forecast, Wrapped;
    PredictedIsForecast(image, y, x, ci, s.psv, s.edge);
    WrappedOnlyOutside(Difference(s, image, y, x, ci).value);
    assert Component(image, ci)(y, x) == image[y][x][ci];
  }

  /** A coded pixel is read to its end, even after wrong samples; after the right ones it comes
      back exactly when its differences fit. */
  lemma {:induction false} PixelBack(s: Setup, image: seq<Row>, y: nat, x: nat, ci: nat, rest: seq<bit>, rows: seq<Row>, row: Row, p: Pixel)
    requires Usable(s) && s.Valid() && y < |image| && x < |image[y]| && PixelCodable(s, image, y, x) && ci <= |s.tables|
    requires |rows| == y && |row| == x && |p| == ci
    ensures var r := ReadPixel(CodePixel(s, image, y, x, ci) + rest, s, rows, row, p);
            && r.Ok? && r.value.1 == rest && |r.value.0| == |s.tables| && p <= r.value.0
            && (SoFar(image, y, x, rows, row) && p == image[y][x][..ci] ==>
                  (r.value.0 == image[y][x] <==> PixelExact(s, image, y, x, ci)))
    decreases |s.tables| - ci
  {
    hide CodeDiff, DiffCodable, ReadDifference, Predicted, HuffTable.Valid, Wrapped, SoFar, SampleExact, Difference, Forecast;
    if ci == |s.tables| {
      assert [] + rest == rest;
    } else {
      assert SampleCodable(s, image, y, x, ci);
      var d, more := Difference(s, image, y, x, ci).value, CodePixel(s, image, y, x, ci + 1);
      var code := CodeDiff(s.tables[ci], Wrapped(d));
      assert (code + more) + rest == code + (more + rest);
      DifferenceBack(s.tables[ci], Wrapped(d), more + rest);
      DifferenceForecast(s, image, y, x, ci);
      PredictionExists(image, y, x, rows, row, ci, s.psv, s.edge);
      var v := Predicted(rows, row, ci, s.psv, s.edge).value + Wrapped(d);
      PixelBack(s, image, y, x, ci + 1, rest, rows, row, p + [v]);
      var q := ReadPixel(more + rest, s, rows, row, p + [v]).value.0;
      assert q[ci] == (p + [v])[ci] == v;
      if SoFar(image, y, x, rows, row) && p == image[y][x][..ci] {
        SampleBack(s, image, y, x, ci, rows, row);
        if v == image[y][x][ci] {
          assert p + [v] == image[y][x][..ci + 1];
          assert PixelExact(s, image, y, x, ci) <==> PixelExact(s, image, y, x, ci + 1);
        }
      }
    }
  }

  lemma DifferenceForecast(s: Setup, image: seq<Row>, y: nat, x: nat, ci: nat)
    requires Difference(s, image, y, x, ci).Some?
    ensures Forecast(s.psv, s.edge, Component(image, ci), y, x).Some?
  {
    hide Forecast;
  }

  lemma {:induction false} RowBack(s: Setup, image: seq<Row>, y: nat, x: nat, rest: seq<bit>, rows: seq<Row>, row: Row)
    requires Usable(s) && s.Valid() && y < |image| && RowCodable(s, image, y) && x <= |image[y]|
    requires |rows| == y && |row| == x
    ensures var r := ReadRow(CodeRow(s, image, y, x) + rest, s, rows, row);
            && r.Ok? && r.value.1 == rest && |r.value.0| == |image[y]| && row <= r.value.0
            && (SoFar(image, y, x, rows, row) ==> (r.value.0 == image[y] <==> RowExact(s, image, y, x)))
    decreases |image[y]| - x
  {
    hide CodePixel, PixelCodable, ReadPixel, HuffTable.Valid, PixelExact;
    if x == |image[y]| {
      assert [] + rest == rest;
    } else {
      var first, more := CodePixel(s, image, y, x, 0), CodeRow(s, image, y, x + 1);
      assert (first + more) + rest == first + (more + rest);
      PixelBack(s, image, y, x, 0, more + rest, rows, row, []);
      assert image[y][x][..0] == [];
      var p := ReadPixel(first + (more + rest), s, rows, row, []).value.0;
      RowBack(s, image, y, x + 1, rest, rows, row + [p]);
      var q := ReadRow(more + rest, s, rows, row + [p]).value.0;
      assert q[x] == (row + [p])[x] == p;
      if row == image[y][..x] && p == image[y][x] {
        assert row + [p] == image[y][..x + 1];
      }
    }
  }

  lemma {:induction false} ImageBack(s: Setup, image: seq<Row>, y: nat, rest: seq<bit>, rows: seq<Row>)
    requires Usable(s) && s.Valid() && ImageCodable(s, image) && y <= |image| && |rows| == y
    ensures var r := ReadImage(CodeImage(s, image, y) + rest, s, rows);
            && r.Ok? && r.value.1 == rest && |r.value.0| == |image| && rows <= r.value.0
            && (rows == image[..y] ==> (r.value.0 == image <==> ImageExact(s, image, y)))
    decreases |image| - y
  {
    hide CodeRow, RowCodable, ReadRow, HuffTable.Valid, RowExact;
    if y == |image| {
      assert [] + rest == rest;
    } else {
      var first, more := CodeRow(s, image, y, 0), CodeImage(s, image, y + 1);
      assert (first + more) + rest == first + (more + rest);
      RowBack(s, image, y, 0, more + rest, rows, []);
      assert image[y][..0] == [];
      var row := ReadRow(first + (more + rest), s, rows, []).value.0;
      ImageBack(s, image, y + 1, rest, rows + [row]);
      var q := ReadImage(more + rest, s, rows + [row]).value.0;
      assert q[y] == (rows + [row])[y] == row;
      if rows == image[..y] && row == image[y] {
        assert rows + [row] == image[..y + 1];
      }
    }
  }

  lemma {:induction false} DestuffStuff(data: seq<byte>)
    ensures Destuff(Stuff(data)) == data
  {
    if data != [] {
      DestuffStuff(data[1..]);
      var s := Stuff(data);
      if data[0] == 0xFF {
        assert s[2..] == Stuff(data[1..]);
      } else {
        assert s[1..] == Stuff(data[1..]);
      }
    }
  }

  /** An image whose differences have codes modulo 2^16, coded, filled to whole bytes and stuffed
      after any header, is always decoded to an image of its size, leaving the filling. That is
      the image itself exactly when every difference fits 16 bits: the decoder adds what was
      coded without reducing the sum. */
  lemma LosslessDecodesCoding(s: Setup, image: seq<Row>, header: seq<byte>, tail: seq<bit>)
    requires Usable(s) && ImageCodable(s, image) && |CodeImage(s, image, 0) + tail| % 8 == 0
    ensures s.Valid()
    ensures var r := ReadImage(RestOf(header + Stuff(Pack(CodeImage(s, image, 0) + tail)), |header|), s, []);
            && r.Ok? && r.value.1 == tail && |r.value.0| == |image|
            && (r.value.0 == image <==> ImageExact(s, image, 0))
  {
    hide CodeImage, ImageCodable, ReadImage, Pack, Stuff, Destuff, BitReader.ByteBits, HuffTable.Valid, Setup.Valid, ImageExact;
    UsableIsValid(s);
    var bits := CodeImage(s, image, 0) + tail;
    var data := header + Stuff(Pack(bits));
    assert data[|header|..] == Stuff(Pack(bits));
    DestuffStuff(Pack(bits));
    ByteBitsPack(bits);
    assert image[..0] == [];
    ImageBack(s, image, 0, tail, []);
  }

  // ---------------------------------------------------------------------------------------
  // Precision
  // ---------------------------------------------------------------------------------------

  ghost predicate InRange(image: seq<Row>, top: nat) {
    forall y, x, ci :: 0 <= y < |image| && 0 <= x < |image[y]| && 0 <= ci < |image[y][x]| ==> 0 <= image[y][x][ci] < top
  }

  /** Predictions from samples below `top`: the simple predictors stay below it, the others
      leave the range by less than `top` on either side. */
  lemma ForecastBound(image: seq<Row>, ci: nat, psv: int, edge: int, y: nat, x: nat, top: nat)
    requires 1 <= psv <= 7 && 0 <= edge < top && InRange(image, top)
    ensures var v := Forecast(psv, edge, Component(image, ci), y, x);
            v.Some? && 0 < v.value + top < 3 * top && (psv <= 3 || psv == 7 ==> 0 <= v.value < top)
  {
    hide InRange, Halved, Component;
    SampleBound(image, y, x - 1, ci, top);
    SampleBound(image, y - 1, x, ci, top);
    SampleBound(image, y - 1, x - 1, ci, top);
  }

  lemma SampleBound(image: seq<Row>, y: int, x: int, ci: nat, top: nat)
    requires InRange(image, top) && top > 0
    ensures 0 <= Component(image, ci)(y, x) < top
  {
  }

  /** The tables code every category up to `most`. */
  ghost predicate Covers(s: Setup, most: nat)
    requires Usable(s)
  {
    forall k, cat :: 0 <= k < |s.tables| && 0 <= cat <= most ==> HasCategory(s.tables[k], cat)
  }

  ghost predicate HasCategory(t: HuffTable, cat: nat) {
    t.Valid() && t.Has(cat)
  }

  /** Precisions and predictors under which every difference fits 16 bits. */
  predicate Suits(precision: nat, psv: int) {
    precision <= 14 || (precision == 15 && (psv <= 3 || psv == 7))
  }

  /** The largest category that can occur then. */
  function MostCategory(precision: nat): nat {
    if precision <= 14 then precision + 1 else precision
  }

  /** What the parsed header promises about an image of some precision and predictor. */
  ghost predicate OfPrecision(s: Setup, image: seq<Row>, precision: nat, psv: int) {
    && precision >= 1 && s.psv == psv && s.edge == Pow(2, precision - 1)
    && |image| == s.h && Rectangular(image, s.w, |s.tables|) && InRange(image, Pow(2, precision))
  }

  /** For samples of at most 14 bits and any of the seven predictors, and for 15 bits and
      predictors 1, 2, 3 and 7, every difference has a category of at most `MostCategory` and is
      codable without category 16. */
  lemma PrecisionCodable(s: Setup, image: seq<Row>, precision: nat)
    requires Usable(s) && OfPrecision(s, image, precision, s.psv) && 1 <= s.psv <= 7 && Suits(precision, s.psv)
    requires Covers(s, MostCategory(precision))
    ensures ImageCodable(s, image) && ImageExact(s, image, 0)
    ensures forall y, x, ci :: 0 <= y < |image| && 0 <= x < |image[y]| && 0 <= ci < |image[y][x]| ==>
              SmallDifference(s, image, y, x, ci, MostCategory(precision))
  {
    hide Pow, Forecast, DiffCodable, HuffTable.Valid, HuffTable.Has, SampleCodable, SmallDifference, InRange, Covers, Difference, SampleExact, MostCategory;
    forall y, x, ci | 0 <= y < |image| && 0 <= x < |image[y]| && 0 <= ci < |image[y][x]|
      ensures SmallDifference(s, image, y, x, ci, MostCategory(precision))
      ensures |image[y][x]| == |s.tables| && SampleCodable(s, image, y, x, ci)
      ensures SampleExact(s, image, y, x, ci)
    {
      SampleFits(s, image, precision, y, x, ci);
      SmallIsCodable(s, image, y, x, ci, MostCategory(precision));
    }
    forall y | 0 <= y < |image|
      ensures RowCodable(s, image, y)
    {
      forall x | 0 <= x < |image[y]|
        ensures PixelCodable(s, image, y, x)
      {
        assert |image[y][x]| == |s.tables|;
      }
    }
  }

  /** The difference at a sample exists and has at most `most` bits. */
  predicate SmallDifference(s: Setup, image: seq<Row>, y: nat, x: nat, ci: nat, most: nat)
    requires y < |image| && x < |image[y]| && ci < |image[y][x]|
  {
    var d := Difference(s, image, y, x, ci);
    d.Some? && Abs(d.value) < 32768 && Category(Abs(d.value)) <= most
  }

  lemma SampleFits(s: Setup, image: seq<Row>, precision: nat, y: nat, x: nat, ci: nat)
    requires OfPrecision(s, image, precision, s.psv) && 1 <= s.psv <= 7 && Suits(precision, s.psv)
    requires y < |image| && x < |image[y]| && ci < |image[y][x]|
    ensures SmallDifference(s, image, y, x, ci, MostCategory(precision))
    ensures SampleExact(s, image, y, x, ci)
  {
    hide Pow, Forecast, Category;
    var top := Pow(2, precision);
    PowSucc(2, precision);
    PowSucc(2, precision - 1);
    ForecastBound(image, ci, s.psv, s.edge, y, x, top);
    var d := Difference(s, image, y, x, ci).value;
    PowMonotone(MostCategory(precision), 15);
    FifteenBits();
    CategoryAtMost(Abs(d), MostCategory(precision));
  }

  lemma SmallIsCodable(s: Setup, image: seq<Row>, y: nat, x: nat, ci: nat, most: nat)
    requires Usable(s) && Covers(s, most) && y < |image| && x < |image[y]| && ci < |image[y][x]| == |s.tables|
    requires SmallDifference(s, image, y, x, ci, most)
    ensures SampleCodable(s, image, y, x, ci)
  {
    hide Forecast, Category, HuffTable.Valid, HuffTable.Has;
    var d := Difference(s, image, y, x, ci).value;
    WrappedOnlyOutside(d);
    assert HasCategory(s.tables[ci], Category(Abs(d)));
  }

  lemma FifteenBits()
    ensures Pow(2, 15) == 32768
  {
    PowAdd(2, 8, 7);
    SmallPowers();
  }

  // ---------------------------------------------------------------------------------------
  // A table for every category
  // ---------------------------------------------------------------------------------------

  /** Seventeen codes of 5 bits. */
  function Seventeen(): (counts: seq<byte>)
    ensures |counts| == MAX_LENGTH && forall l :: 0 <= l < MAX_LENGTH ==> counts[l] == if l == 4 then 17 else 0
  {
    seq(MAX_LENGTH, l => if l == 4 then 17 else 0)
  }

  function Categories(): (syms: seq<byte>)
    ensures |syms| == 17 && forall k :: 0 <= k < 17 ==> syms[k] == k
  {
    seq(17, k requires 0 <= k < 17 => k)
  }

  function FullTable(): HuffTable {
    HuffTable(Seventeen(), Categories())
  }

  lemma {:induction false} SeventeenCounts(counts: seq<byte>, l: nat)
    requires counts == Seventeen() && l <= MAX_LENGTH
    ensures SumCounts(counts, l) == if l < 5 then 0 else 17
    ensures End(counts, l) == if l < 5 then 0 else 17 * Pow(2, l - 5)
    ensures l >= 5 ==> MaxLength(counts, l) == 5
  {
    hide Seventeen;
    if l > 0 {
      SeventeenCounts(counts, l - 1);
      if l == 5 {
        PowNone();
      } else if l > 5 {
        PowSucc(2, l - 6);
      }
    }
  }

  lemma FullTableValid()
    ensures FullTable().Valid()
  {
    hide Pow, SumCounts, End, MaxLength, Expanded, Seventeen, Categories;
    SeventeenCounts(Seventeen(), MAX_LENGTH);
    PowAdd(2, 11, 5);
    ThirtyTwo();
    MulGap(Pow(2, 11), 17, 32);
  }

  lemma ThirtyTwo()
    ensures Pow(2, 5) == 32
  {
  }

  /** The table codes every category. */
  ghost predicate IsFull(t: HuffTable) {
    t.Valid() && forall cat :: 0 <= cat <= 16 ==> t.Has(cat)
  }

  lemma FullParts()
    ensures var t := FullTable(); SumCounts(t.counts, |t.counts|) == 17 && |t.counts| == MAX_LENGTH
    ensures var t := FullTable(); |t.syms| == 17 && forall k :: 0 <= k < 17 ==> t.syms[k] == k
  {
    hide SumCounts, Seventeen, Categories;
    SeventeenCounts(Seventeen(), MAX_LENGTH);
  }

  lemma FullTableIsFull()
    ensures IsFull(FullTable())
  {
    hide SumCounts, HuffTable.Valid, HuffTable.Has, FullTable;
    FullTableValid();
    FullParts();
    var t := FullTable();
    forall cat | 0 <= cat <= 16
      ensures t.Has(cat)
    {
      HasAt(t, cat);
    }
  }

  lemma FullCodes(t: HuffTable, d: int)
    requires IsFull(t)
    ensures DiffCodable(t, Wrapped(d))
  {
    hide HuffTable.Valid, HuffTable.Has, Category;
    if Wrapped(d) != -32768 {
      Category15(Abs(Wrapped(d)));
    }
  }

  /** With full tables every image of the size can be coded, whatever its samples. */
  lemma FullImageCodable(s: Setup, image: seq<Row>)
    requires Usable(s) && 1 <= s.psv <= 7 && |image| == s.h && Rectangular(image, s.w, |s.tables|)
    requires forall k :: 0 <= k < |s.tables| ==> IsFull(s.tables[k])
    ensures ImageCodable(s, image)
  {
    hide DiffCodable, HuffTable.Valid, Wrapped, IsFull, SampleCodable;
    forall y | 0 <= y < |image|
      ensures RowCodable(s, image, y)
    {
      forall x | 0 <= x < |image[y]|
        ensures PixelCodable(s, image, y, x)
      {
        forall ci | 0 <= ci < |image[y][x]|
          ensures SampleCodable(s, image, y, x, ci)
        {
          FullSampleCodable(s, image, y, x, ci);
        }
      }
    }
  }

  lemma FullSampleCodable(s: Setup, image: seq<Row>, y: nat, x: nat, ci: nat)
    requires Usable(s) && 1 <= s.psv <= 7 && ci < |s.tables| && IsFull(s.tables[ci])
    ensures SampleCodable(s, image, y, x, ci)
  {
    hide DiffCodable, HuffTable.Valid, Wrapped, IsFull, Component, Halved;
    FullCodes(s.tables[ci], Difference(s, image, y, x, ci).value);
  }

  // ---------------------------------------------------------------------------------------
  // Exactly which precisions and predictors
  // ---------------------------------------------------------------------------------------

  /** A coded image as it is stored behind a header. */
  ghost function Stored(s: Setup, image: seq<Row>, header: seq<byte>, tail: seq<bit>): seq<byte>
    requires Usable(s) && ImageCodable(s, image) && |CodeImage(s, image, 0) + tail| % 8 == 0
  {
    header + Stuff(Pack(CodeImage(s, image, 0) + tail))
  }

  /** However it is stored, the decoder returns the image. */
  ghost predicate Returned(s: Setup, image: seq<Row>)
    requires Usable(s) && ImageCodable(s, image) && s.Valid()
  {
    forall header: seq<byte>, tail: seq<bit> :: |CodeImage(s, image, 0) + tail| % 8 == 0
      ==> ReadImage(RestOf(Stored(s, image, header, tail), |header|), s, []) == Ok((image, tail))
  }

  lemma ReturnedExactly(s: Setup, image: seq<Row>)
    requires Usable(s) && ImageCodable(s, image) && s.Valid()
    ensures Returned(s, image) <==> ImageExact(s, image, 0)
  {
    hide CodeImage, ImageCodable, ReadImage, Pack, Stuff, RestOf, HuffTable.Valid, Setup.Valid, ImageExact;
    forall header: seq<byte>, tail: seq<bit> | |CodeImage(s, image, 0) + tail| % 8 == 0
      ensures ReadImage(RestOf(Stored(s, image, header, tail), |header|), s, []) == Ok((image, tail)) <==> ImageExact(s, image, 0)
    {
      LosslessDecodesCoding(s, image, header, tail);
    }
    var n := |CodeImage(s, image, 0)|;
    var tail: seq<bit> := BitReader.Zeros((8 - n % 8) % 8);
    assert |CodeImage(s, image, 0) + tail| % 8 == 0;
    var data := Stored(s, image, [], tail);
  }

  /** Every image of the precision that can be coded for the predictor is returned. */
  ghost predicate AlwaysReturned(precision: nat, psv: int) {
    forall s: Setup, image: seq<Row> :: Usable(s) && s.Valid() && OfPrecision(s, image, precision, psv) && ImageCodable(s, image)
      ==> Returned(s, image)
  }

  /** Exactly up to 14 bits, and at 15 bits for predictors 1, 2, 3 and 7, the decoder returns
      every coded image; otherwise it returns another one for some coded image. */
  lemma PrecisionExact(precision: nat, psv: int)
    requires 1 <= precision && 1 <= psv <= 7
    ensures AlwaysReturned(precision, psv) <==> Suits(precision, psv)
  {
    hide Pow, InRange, Forecast, SampleExact, ImageCodable, Returned, Setup.Valid, HuffTable.Valid;
    if Suits(precision, psv) {
      forall s: Setup, image: seq<Row> | Usable(s) && s.Valid() && OfPrecision(s, image, precision, psv) && ImageCodable(s, image)
        ensures Returned(s, image)
      {
        forall y, x, ci | 0 <= y < |image| && 0 <= x < |image[y]| && 0 <= ci < |image[y][x]|
          ensures SampleExact(s, image, y, x, ci)
        {
          SampleFits(s, image, precision, y, x, ci);
        }
        ReturnedExactly(s, image);
      }
    } else if precision == 15 {
      FifteenBitImage(psv);
    } else {
      SixteenBitImage(precision, psv);
    }
  }

  /** Four 15-bit samples that predictors 4, 5 and 6 miss by 32768 or more: they are coded with a
      valid table, and the decoder does not return them. */
  lemma FifteenBitImage(psv: int)
    requires 4 <= psv <= 6
    ensures var s, image := Setup(2, 2, [FullTable()], psv, 16384), [[[0], [32767]], [[32767], [0]]];
            && OfPrecision(s, image, 15, psv) && Usable(s) && s.Valid() && ImageCodable(s, image)
            && !Returned(s, image)
  {
    hide Pow, FullTable, ImageCodable, Returned, Setup.Valid, HuffTable.Valid, IsFull;
    var s, image := Setup(2, 2, [FullTable()], psv, 16384), [[[0], [32767]], [[32767], [0]]];
    hide SampleExact, OfPrecision;
    FifteenOfPrecision(s, image);
    WithFullTable(s, image);
    MissedByPredictors(s, image);
    assert !PixelExact(s, image, 1, 1, 0);
    assert !RowExact(s, image, 1, 0);
    ReturnedExactly(s, image);
  }

  lemma FifteenOfPrecision(s: Setup, image: seq<Row>)
    requires image == [[[0], [32767]], [[32767], [0]]] && s.w == s.h == 2 && |s.tables| == 1 && s.edge == 16384
    ensures OfPrecision(s, image, 15, s.psv) && |image| == s.h && Rectangular(image, s.w, 1)
  {
    hide Pow;
    FifteenBits();
    PowSucc(2, 14);
  }

  lemma MissedByPredictors(s: Setup, image: seq<Row>)
    requires 4 <= s.psv <= 6 && image == [[[0], [32767]], [[32767], [0]]]
    ensures !SampleExact(s, image, 1, 1, 0)
  {
    hide Component, Halved;
    var f := Component(image, 0);
    FourSamples(image);
    assert Forecast(s.psv, s.edge, f, 1, 1) == TableH1(s.psv, f, 1, 1);
  }

  lemma FourSamples(image: seq<Row>)
    requires image == [[[0], [32767]], [[32767], [0]]]
    ensures var f := Component(image, 0); f(0, 0) == 0 == f(1, 1) && f(0, 1) == 32767 == f(1, 0)
  {
  }

  lemma WithFullTable(s: Setup, image: seq<Row>)
    requires s.tables == [FullTable()] && 1 <= s.psv <= 7 && |image| == s.h && Rectangular(image, s.w, 1)
    ensures Usable(s) && s.Valid() && ImageCodable(s, image)
  {
    hide FullTable, HuffTable.Valid, ImageCodable;
    FullTableIsFull();
    UsableIsValid(s);
    FullImageCodable(s, image);
  }

  /** The largest sample, then 0: a difference of at least 65535 under every predictor. */
  lemma SixteenBitImage(precision: nat, psv: int)
    requires precision >= 16 && 1 <= psv <= 7
    ensures var s := Setup(2, 1, [FullTable()], psv, Pow(2, precision - 1));
            var image := [[[Pow(2, precision) - 1], [0]]];
            && OfPrecision(s, image, precision, psv) && Usable(s) && s.Valid() && ImageCodable(s, image)
            && !Returned(s, image)
  {
    hide Pow, FullTable, ImageCodable, Returned, Setup.Valid, HuffTable.Valid, IsFull;
    var s := Setup(2, 1, [FullTable()], psv, Pow(2, precision - 1));
    var image := [[[Pow(2, precision) - 1], [0]]];
    FifteenBits();
    PowSucc(2, 15);
    PowMonotone(16, precision);
    WithFullTable(s, image);
    assert !SampleExact(s, image, 0, 1, 0);
    assert !PixelExact(s, image, 0, 1, 0);
    assert !RowExact(s, image, 0, 0);
    ReturnedExactly(s, image);
  }
}
