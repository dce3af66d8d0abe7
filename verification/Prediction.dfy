/** Lossless prediction over whole components (Annex H of ITU-T T.81; tools/ljpeg_decode.py): what
    each predictor makes of the differences of an image. */
module Prediction {
  import opened Prelude
  import opened Huffman
  import opened Lossless

  /** One component of an image by row and column. */
  type Plane = (int, int) -> int

  function Component(image: seq<Row>, ci: nat): Plane {
    (y, x) => if 0 <= y < |image| && 0 <= x < |image[y]| && ci < |image[y][x]| then image[y][x][ci] else 0
  }

  /** Half, downwards. */
  function Halved(n: int): (h: int)
    ensures 2 * h <= n <= 2 * h + 1
  {
    if n % 2 == 0 then n / 2 else (n - 1) / 2
  }

  /** Table H.1, at a place with a row above and a column to the left. */
  function TableH1(psv: int, f: Plane, y: int, x: int): Option<int> {
    match psv
    case 1 => Some(f(y, x - 1))
    case 2 => Some(f(y - 1, x))
    case 3 => Some(f(y - 1, x - 1))
    case 4 => Some(f(y, x - 1) + f(y - 1, x) - f(y - 1, x - 1))
    case 5 => Some(f(y, x - 1) + Halved(f(y - 1, x) - f(y - 1, x - 1)))
    case 6 => Some(f(y - 1, x) + Halved(f(y, x - 1) - f(y - 1, x - 1)))
    case 7 => Some(Halved(f(y, x - 1) + f(y - 1, x)))
    case _ => None
  }

  /** The first sample is predicted by the middle of the range, the rest of the first row from the
      left, the rest of the first column from above. */
  function Forecast(psv: int, edge: int, f: Plane, y: int, x: int): Option<int> {
    if y == 0 then Some(if x == 0 then edge else f(0, x - 1)) else if x == 0 then Some(f(y - 1, 0)) else TableH1(psv, f, y, x)
  }

  /** The decoder's prediction from what it has so far is that of the whole image. */
  lemma PredictedIsForecast(image: seq<Row>, y: nat, x: nat, ci: nat, psv: int, edge: int)
    requires y < |image| && x < |image[y]|
    ensures Predicted(image[..y], image[y][..x], ci, psv, edge)
            == match Forecast(psv, edge, Component(image, ci), y, x)
               case Some(v) => Ok(v)
               case None => Err(BadPredictor)
  {
    hide Sample, Component, Halved;
    if x > 0 {
      SampleSoFar(image, y, x, ci, y, x - 1);
    }
    if y > 0 {
      SampleSoFar(image, y, x, ci, y - 1, x);
    }
    if x > 0 && y > 0 {
      SampleSoFar(image, y, x, ci, y - 1, x - 1);
      var f := Component(image, ci);
      HalvedIs(f(y - 1, x) - f(y - 1, x - 1));
      HalvedIs(f(y, x - 1) - f(y - 1, x - 1));
      HalvedIs(f(y, x - 1) + f(y - 1, x));
    }
  }

  lemma HalvedIs(n: int)
    ensures Halved(n) == n / 2
  {
  }

  lemma SampleSoFar(image: seq<Row>, y: nat, x: nat, ci: nat, v: nat, u: nat)
    requires y < |image| && x < |image[y]| && (v < y || (v == y && u < x))
    ensures Sample(image[..y] + [image[y][..x]], v, u, ci) == Component(image, ci)(v, u)
  {
    var all := image[..y] + [image[y][..x]];
    assert v < y ==> all[v] == image[v];
    assert v == y ==> all[v] == image[y][..x] && all[v][u] == image[y][u];
  }

  // ---------------------------------------------------------------------------------------
  // A component made from differences
  // ---------------------------------------------------------------------------------------

  /** Every sample is its prediction and its difference. */
  ghost predicate Builds(psv: int, edge: int, d: Plane, f: Plane, h: nat, w: nat) {
    forall y, x :: 0 <= y < h && 0 <= x < w ==> BuiltAt(psv, edge, d, f, y, x)
  }

  ghost predicate BuiltAt(psv: int, edge: int, d: Plane, f: Plane, y: int, x: int) {
    var p := Forecast(psv, edge, f, y, x);
    p.Some? && f(y, x) == p.value + d(y, x)
  }

  /** The differences right of the first column, and below the first row. */
  function RowSum(d: Plane, y: int, x: nat): int {
    if x == 0 then 0 else RowSum(d, y, x - 1) + d(y, x)
  }

  function ColumnSum(d: Plane, y: nat, x: int): int {
    if y == 0 then 0 else ColumnSum(d, y - 1, x) + d(y, x)
  }

  /** The last `k` differences of a diagonal. */
  function DiagonalSum(d: Plane, y: int, x: int, k: nat): int
    decreases k
  {
    if k == 0 then 0 else d(y, x) + DiagonalSum(d, y - 1, x - 1, k - 1)
  }

  /** The differences of the rectangle below the first row and right of the first column. */
  function RectangleSum(d: Plane, y: nat, x: nat): int {
    if y == 0 then 0 else RectangleSum(d, y - 1, x) + RowSum(d, y, x)
  }

  /** The first row adds up its differences whatever the predictor. */
  lemma {:induction false} FirstRow(psv: int, edge: int, d: Plane, f: Plane, h: nat, w: nat, x: nat)
    requires Builds(psv, edge, d, f, h, w) && h > 0 && x < w
    ensures f(0, x) == edge + d(0, 0) + RowSum(d, 0, x)
  {
    assert BuiltAt(psv, edge, d, f, 0, x);
    if x > 0 {
      FirstRow(psv, edge, d, f, h, w, x - 1);
    }
  }

  lemma {:induction false} FirstColumn(psv: int, edge: int, d: Plane, f: Plane, h: nat, w: nat, y: nat)
    requires Builds(psv, edge, d, f, h, w) && w > 0 && y < h
    ensures f(y, 0) == edge + d(0, 0) + ColumnSum(d, y, 0)
  {
    assert BuiltAt(psv, edge, d, f, y, 0);
    if y > 0 {
      FirstColumn(psv, edge, d, f, h, w, y - 1);
    }
  }

  /** Predictor 1: every row adds up from its first sample. */
  lemma {:induction false} AlongRows(edge: int, d: Plane, f: Plane, h: nat, w: nat, y: nat, x: nat)
    requires Builds(1, edge, d, f, h, w) && y < h && x < w
    ensures f(y, x) == f(y, 0) + RowSum(d, y, x)
  {
    if x > 0 {
      assert BuiltAt(1, edge, d, f, y, x);
      AlongRows(edge, d, f, h, w, y, x - 1);
    }
  }

  /** Predictor 2: every column adds up from its first sample. */
  lemma {:induction false} AlongColumns(edge: int, d: Plane, f: Plane, h: nat, w: nat, y: nat, x: nat)
    requires Builds(2, edge, d, f, h, w) && y < h && x < w
    ensures f(y, x) == f(0, x) + ColumnSum(d, y, x)
  {
    if y > 0 {
      assert BuiltAt(2, edge, d, f, y, x);
      AlongColumns(edge, d, f, h, w, y - 1, x);
    }
  }

  /** Predictor 3: diagonals add up. */
  lemma {:induction false} AlongDiagonals(edge: int, d: Plane, f: Plane, h: nat, w: nat, y: nat, x: nat, k: nat)
    requires Builds(3, edge, d, f, h, w) && y < h && x < w && k <= y && k <= x
    ensures f(y, x) == f(y - k, x - k) + DiagonalSum(d, y, x, k)
    decreases k
  {
    if k > 0 {
      assert BuiltAt(3, edge, d, f, y, x);
      AlongDiagonals(edge, d, f, h, w, y - 1, x - 1, k - 1);
    }
  }

  /** Predictor 4: the differences of a rectangle add up to what its far corner has over the first
      row and column. */
  lemma {:induction false} OverRectangles(edge: int, d: Plane, f: Plane, h: nat, w: nat, y: nat, x: nat)
    requires Builds(4, edge, d, f, h, w) && y < h && x < w
    ensures f(y, x) == f(0, x) + f(y, 0) - f(0, 0) + RectangleSum(d, y, x)
    decreases y, x
  {
    if y > 0 {
      OverRectangles(edge, d, f, h, w, y - 1, x);
      RowAboveRow(edge, d, f, h, w, y, x);
    }
  }

  lemma {:induction false} RowAboveRow(edge: int, d: Plane, f: Plane, h: nat, w: nat, y: nat, x: nat)
    requires Builds(4, edge, d, f, h, w) && 0 < y < h && x < w
    ensures f(y, x) - f(y - 1, x) == f(y, 0) - f(y - 1, 0) + RowSum(d, y, x)
    decreases x
  {
    if x > 0 {
      assert BuiltAt(4, edge, d, f, y, x);
      RowAboveRow(edge, d, f, h, w, y, x - 1);
    }
  }

  /** The differences determine the component. */
  lemma {:induction false} BuildsUnique(psv: int, edge: int, d: Plane, f: Plane, g: Plane, h: nat, w: nat, y: nat, x: nat)
    requires Builds(psv, edge, d, f, h, w) && Builds(psv, edge, d, g, h, w) && y < h && x < w
    ensures f(y, x) == g(y, x)
    decreases y, x
  {
    assert BuiltAt(psv, edge, d, f, y, x) && BuiltAt(psv, edge, d, g, y, x);
    if x > 0 {
      BuildsUnique(psv, edge, d, f, g, h, w, y, x - 1);
    }
    if y > 0 {
      BuildsUnique(psv, edge, d, f, g, h, w, y - 1, x);
    }
    if x > 0 && y > 0 {
      BuildsUnique(psv, edge, d, f, g, h, w, y - 1, x - 1);
    }
  }

  function Transposed(f: Plane): Plane {
    (y, x) => f(x, y)
  }

  /** The predictor with left and above exchanged. */
  function Exchanged(psv: int): int {
    match psv
    case 1 => 2
    case 2 => 1
    case 5 => 6
    case 6 => 5
    case _ => psv
  }

  /** Transposing exchanges predictors 1 and 2, and 5 and 6. */
  lemma TransposingExchanges(psv: int, edge: int, d: Plane, f: Plane, h: nat, w: nat)
    requires Builds(psv, edge, d, f, h, w)
    ensures Builds(Exchanged(psv), edge, Transposed(d), Transposed(f), w, h)
  {
    hide Halved;
    forall y, x | 0 <= y < w && 0 <= x < h
      ensures BuiltAt(Exchanged(psv), edge, Transposed(d), Transposed(f), y, x)
    {
      assert BuiltAt(psv, edge, d, f, x, y);
    }
  }

  // ---------------------------------------------------------------------------------------
  // The differences of a stream
  // ---------------------------------------------------------------------------------------

  /** The differences alone, read in the decoder's order. */
  function PixelDifferences(bits: seq<bit>, s: Setup, pixel: Pixel): Result<(Pixel, seq<bit>), LosslessError>
    requires s.Valid() && |pixel| <= |s.tables|
    decreases |s.tables| - |pixel|
  {
    if |pixel| == |s.tables| then Ok((pixel, bits))
    else
      var d :- ReadDifference(bits, s.tables[|pixel|]);
      PixelDifferences(d.1, s, pixel + [d.0])
  }

  function RowDifferences(bits: seq<bit>, s: Setup, row: Row): Result<(Row, seq<bit>), LosslessError>
    requires s.Valid()
    decreases s.w - |row|
  {
    if |row| >= s.w then Ok((row, bits))
    else
      var p :- PixelDifferences(bits, s, []);
      RowDifferences(p.1, s, row + [p.0])
  }

  function ImageDifferences(bits: seq<bit>, s: Setup, rows: seq<Row>): Result<(seq<Row>, seq<bit>), LosslessError>
    requires s.Valid()
    decreases s.h - |rows|
  {
    if |rows| >= s.h then Ok((rows, bits))
    else
      var r :- RowDifferences(bits, s, []);
      ImageDifferences(r.1, s, rows + [r.0])
  }

  /** A pixel is made from differences after given samples. */
  ghost predicate PixelMade(s: Setup, rows: seq<Row>, row: Row, p: Pixel, d: Pixel) {
    |p| == |d| && forall ci :: 0 <= ci < |p| ==> SampleMade(s, rows, row, ci, p[ci], d[ci])
  }

  ghost predicate SampleMade(s: Setup, rows: seq<Row>, row: Row, ci: nat, v: int, d: int) {
    var pred := Predicted(rows, row, ci, s.psv, s.edge);
    pred.Ok? && v == pred.value + d
  }

  ghost predicate RowMade(s: Setup, rows: seq<Row>, row: Row, d: Row) {
    |row| == |d| && forall x :: 0 <= x < |row| ==> |row[x]| == |s.tables| && PixelMade(s, rows, row[..x], row[x], d[x])
  }

  ghost predicate ImageMade(s: Setup, rows: seq<Row>, d: seq<Row>) {
    |rows| == |d| && forall y :: 0 <= y < |rows| ==> |rows[y]| == s.w && RowMade(s, rows[..y], rows[y], d[y])
  }

  lemma {:induction false} PixelFollows(bits: seq<bit>, s: Setup, rows: seq<Row>, row: Row, p: Pixel, d: Pixel)
    requires s.Valid() && |p| <= |s.tables| && PixelMade(s, rows, row, p, d)
    ensures var r, e := ReadPixel(bits, s, rows, row, p), PixelDifferences(bits, s, d);
            r.Ok? ==> && e.Ok? && r.value.1 == e.value.1 && |r.value.0| == |s.tables|
                      && PixelMade(s, rows, row, r.value.0, e.value.0)
    decreases |s.tables| - |p|
  {
    hide ReadDifference, Predicted;
    if |p| < |s.tables| && ReadPixel(bits, s, rows, row, p).Ok? {
      var ci := |p|;
      var diff := ReadDifference(bits, s.tables[ci]).value;
      var v := Predicted(rows, row, ci, s.psv, s.edge).value + diff.0;
      PixelFollows(diff.1, s, rows, row, p + [v], d + [diff.0]);
    }
  }

  lemma {:induction false} RowFollows(bits: seq<bit>, s: Setup, rows: seq<Row>, row: Row, d: Row)
    requires s.Valid() && |row| <= s.w && RowMade(s, rows, row, d)
    ensures var r, e := ReadRow(bits, s, rows, row), RowDifferences(bits, s, d);
            r.Ok? ==> && e.Ok? && r.value.1 == e.value.1 && |r.value.0| == s.w && RowMade(s, rows, r.value.0, e.value.0)
    decreases s.w - |row|
  {
    hide ReadPixel, PixelDifferences, PixelMade, Setup.Valid;
    if |row| < s.w && ReadRow(bits, s, rows, row).Ok? {
      NoSamples(s, rows, row);
      PixelFollows(bits, s, rows, row, [], []);
      var p, q := ReadPixel(bits, s, rows, row, []).value, PixelDifferences(bits, s, []).value;
      var row', d' := row + [p.0], d + [q.0];
      forall x | 0 <= x < |row'|
        ensures |row'[x]| == |s.tables| && PixelMade(s, rows, row'[..x], row'[x], d'[x])
      {
        if x < |row| {
          assert row'[..x] == row[..x] && row'[x] == row[x] && d'[x] == d[x];
        } else {
          assert row'[..x] == row;
        }
      }
      RowFollows(p.1, s, rows, row', d');
    }
  }

  lemma NoSamples(s: Setup, rows: seq<Row>, row: Row)
    ensures PixelMade(s, rows, row, [], [])
  {
  }

  lemma NoPixels(s: Setup, rows: seq<Row>)
    ensures RowMade(s, rows, [], [])
  {
  }

  lemma {:induction false} ImageFollows(bits: seq<bit>, s: Setup, rows: seq<Row>, d: seq<Row>)
    requires s.Valid() && |rows| <= s.h && ImageMade(s, rows, d)
    ensures var r, e := ReadImage(bits, s, rows), ImageDifferences(bits, s, d);
            r.Ok? ==> && e.Ok? && r.value.1 == e.value.1 && |r.value.0| == s.h && ImageMade(s, r.value.0, e.value.0)
    decreases s.h - |rows|
  {
    hide ReadRow, RowDifferences, RowMade, Setup.Valid;
    if |rows| < s.h && ReadImage(bits, s, rows).Ok? {
      NoPixels(s, rows);
      RowFollows(bits, s, rows, [], []);
      var p, q := ReadRow(bits, s, rows, []).value, RowDifferences(bits, s, []).value;
      var rows', d' := rows + [p.0], d + [q.0];
      forall y | 0 <= y < |rows'|
        ensures |rows'[y]| == s.w && RowMade(s, rows'[..y], rows'[y], d'[y])
      {
        if y < |rows| {
          assert rows'[..y] == rows[..y] && rows'[y] == rows[y] && d'[y] == d[y];
        } else {
          assert rows'[..y] == rows;
        }
      }
      ImageFollows(p.1, s, rows', d');
    }
  }

  /** Every component of a decoded image is built, by the predictor of its header, from the
      differences that stand in the stream. */
  lemma DecodedIsBuilt(bits: seq<bit>, s: Setup, ci: nat)
    requires s.Valid() && ReadImage(bits, s, []).Ok? && ci < |s.tables|
    ensures var e := ImageDifferences(bits, s, []);
            && e.Ok? && e.value.1 == ReadImage(bits, s, []).value.1
            && Builds(s.psv, s.edge, Component(e.value.0, ci), Component(ReadImage(bits, s, []).value.0, ci), s.h, s.w)
  {
    hide ReadImage, ImageDifferences, Predicted, Forecast, Setup.Valid;
    ImageFollows(bits, s, [], []);
    var image, d := ReadImage(bits, s, []).value.0, ImageDifferences(bits, s, []).value.0;
    forall y, x | 0 <= y < s.h && 0 <= x < s.w
      ensures BuiltAt(s.psv, s.edge, Component(d, ci), Component(image, ci), y, x)
    {
      assert RowMade(s, image[..y], image[y], d[y]);
      assert PixelMade(s, image[..y], image[y][..x], image[y][x], d[y][x]);
      assert SampleMade(s, image[..y], image[y][..x], ci, image[y][x][ci], d[y][x][ci]);
      PredictedIsForecast(image, y, x, ci, s.psv, s.edge);
    }
  }

  // ---------------------------------------------------------------------------------------
  // What the decoder computes
  // ---------------------------------------------------------------------------------------

  /** A sample under each predictor, from the differences `d` of its component: predictor 1 adds up
      rows, 2 columns, 3 diagonals, 4 rectangles; 5, 6 and 7 halve downwards. */
  ghost predicate PredictorLaw(s: Setup, d: Plane, f: Plane, y: nat, x: nat) {
    && f(0, x) == s.edge + d(0, 0) + RowSum(d, 0, x)
    && f(y, 0) == s.edge + d(0, 0) + ColumnSum(d, y, 0)
    && (s.psv == 1 ==> f(y, x) == f(y, 0) + RowSum(d, y, x))
    && (s.psv == 2 ==> f(y, x) == f(0, x) + ColumnSum(d, y, x))
    && (s.psv == 3 ==> f(y, x) == if x < y then f(y - x, 0) + DiagonalSum(d, y, x, x) else f(0, x - y) + DiagonalSum(d, y, x, y))
    && (s.psv == 4 ==> f(y, x) == f(0, x) + f(y, 0) - f(0, 0) + RectangleSum(d, y, x))
    && (y > 0 && x > 0 ==>
          var left, above, corner, p := f(y, x - 1), f(y - 1, x), f(y - 1, x - 1), f(y, x) - d(y, x);
          && (s.psv == 5 ==> 0 <= above - corner - 2 * (p - left) <= 1)
          && (s.psv == 6 ==> 0 <= left - corner - 2 * (p - above) <= 1)
          && (s.psv == 7 ==> 0 <= left + above - 2 * p <= 1))
  }

  lemma BuiltObeys(s: Setup, d: Plane, f: Plane, y: nat, x: nat)
    requires Builds(s.psv, s.edge, d, f, s.h, s.w) && y < s.h && x < s.w
    ensures PredictorLaw(s, d, f, y, x)
  {
    hide Builds, RowSum, ColumnSum, DiagonalSum, RectangleSum, Halved;
    FirstRow(s.psv, s.edge, d, f, s.h, s.w, x);
    FirstColumn(s.psv, s.edge, d, f, s.h, s.w, y);
    if s.psv == 1 {
      AlongRows(s.edge, d, f, s.h, s.w, y, x);
    } else if s.psv == 2 {
      AlongColumns(s.edge, d, f, s.h, s.w, y, x);
    } else if s.psv == 3 {
      AlongDiagonals(s.edge, d, f, s.h, s.w, y, x, if x < y then x else y);
    } else if s.psv == 4 {
      OverRectangles(s.edge, d, f, s.h, s.w, y, x);
    }
    BuiltHere(s, d, f, y, x);
  }

  lemma BuiltHere(s: Setup, d: Plane, f: Plane, y: nat, x: nat)
    requires Builds(s.psv, s.edge, d, f, s.h, s.w) && y < s.h && x < s.w
    ensures BuiltAt(s.psv, s.edge, d, f, y, x)
  {
  }

  /** The law of its predictor holds of every sample of a decoded image; and the transposed
      component is what the exchanged predictor makes of the transposed differences. */
  lemma DecodedByPredictor(bits: seq<bit>, s: Setup, ci: nat)
    requires s.Valid() && ReadImage(bits, s, []).Ok? && ci < |s.tables|
    ensures var e := ImageDifferences(bits, s, []);
            e.Ok? && e.value.1 == ReadImage(bits, s, []).value.1
            && var d, f := Component(e.value.0, ci), Component(ReadImage(bits, s, []).value.0, ci);
               && (forall y, x :: 0 <= y < s.h && 0 <= x < s.w ==> PredictorLaw(s, d, f, y, x))
               && Builds(Exchanged(s.psv), s.edge, Transposed(d), Transposed(f), s.w, s.h)
  {
    hide ReadImage, ImageDifferences, Builds, PredictorLaw, Setup.Valid;
    DecodedIsBuilt(bits, s, ci);
    var d, f := Component(ImageDifferences(bits, s, []).value.0, ci), Component(ReadImage(bits, s, []).value.0, ci);
    forall y, x | 0 <= y < s.h && 0 <= x < s.w
      ensures PredictorLaw(s, d, f, y, x)
    {
      BuiltObeys(s, d, f, y, x);
    }
    TransposingExchanges(s.psv, s.edge, d, f, s.h, s.w);
  }

  // ---------------------------------------------------------------------------------------
  // When a stream is decoded
  // ---------------------------------------------------------------------------------------

  lemma {:induction false} PixelReads(bits: seq<bit>, s: Setup, rows: seq<Row>, row: Row, p: Pixel, d: Pixel)
    requires s.Valid() && 1 <= s.psv <= 7 && |p| == |d| <= |s.tables|
    ensures var r, e := ReadPixel(bits, s, rows, row, p), PixelDifferences(bits, s, d);
            (r.Ok? <==> e.Ok?) && (r.Ok? ==> r.value.1 == e.value.1)
    decreases |s.tables| - |p|
  {
    hide ReadDifference, Sample;
    if |p| < |s.tables| && ReadDifference(bits, s.tables[|p|]).Ok? {
      var diff := ReadDifference(bits, s.tables[|p|]).value;
      var v := Predicted(rows, row, |p|, s.psv, s.edge).value + diff.0;
      PixelReads(diff.1, s, rows, row, p + [v], d + [diff.0]);
    }
  }

  lemma {:induction false} RowReads(bits: seq<bit>, s: Setup, rows: seq<Row>, row: Row, d: Row)
    requires s.Valid() && 1 <= s.psv <= 7 && |row| == |d|
    ensures var r, e := ReadRow(bits, s, rows, row), RowDifferences(bits, s, d);
            (r.Ok? <==> e.Ok?) && (r.Ok? ==> r.value.1 == e.value.1)
    decreases s.w - |row|
  {
    hide ReadPixel, PixelDifferences, Setup.Valid;
    if |row| < s.w {
      PixelReads(bits, s, rows, row, [], []);
      if ReadPixel(bits, s, rows, row, []).Ok? {
        var p, q := ReadPixel(bits, s, rows, row, []).value, PixelDifferences(bits, s, []).value;
        RowReads(p.1, s, rows, row + [p.0], d + [q.0]);
      }
    }
  }

  /** With one of the seven predictors a stream is decoded exactly if its differences can be read. */
  lemma {:induction false} ImageReads(bits: seq<bit>, s: Setup, rows: seq<Row>, d: seq<Row>)
    requires s.Valid() && 1 <= s.psv <= 7 && |rows| == |d|
    ensures var r, e := ReadImage(bits, s, rows), ImageDifferences(bits, s, d);
            (r.Ok? <==> e.Ok?) && (r.Ok? ==> r.value.1 == e.value.1)
    decreases s.h - |rows|
  {
    hide ReadRow, RowDifferences, Setup.Valid;
    if |rows| < s.h {
      RowReads(bits, s, rows, [], []);
      if ReadRow(bits, s, rows, []).Ok? {
        var p, q := ReadRow(bits, s, rows, []).value, RowDifferences(bits, s, []).value;
        ImageReads(p.1, s, rows + [p.0], d + [q.0]);
      }
    }
  }
}
