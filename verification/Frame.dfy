/** From tiles to a frame (tool/src/dct2s.rs): one plane per scan, and the interleaving of the
    eight planes of four tiles. The inverse transform is a parameter. */
module Frame {
  import opened Prelude
  import opened Huffman
  import opened BitReader
  import opened Scan
  import opened ScanInverse
  import opened Tile

  const NBLK_W: nat := 241
  const NB: nat := 16388
  const PLANE_W: nat := 1928
  const PLANE_H: nat := 544

  /** The 64 16-bit pixels of a block, row by row. */
  type Pixels = p: seq<nat> | |p| == 64 && forall k :: 0 <= k < 64 ==> p[k] < 0x1_0000 witness seq(64, _ => 0)

  type Idct = seq<int> -> Pixels

  datatype FrameError =
    | BadTileCount(tiles: nat) | BadTile(tile: TileError) | TableMissing(id: nat) | BadTable(table: TableError) | BadScan(scan: ScanError)

  // ---------------------------------------------------------------------------------------
  // Where a block's pixels go
  // ---------------------------------------------------------------------------------------

  /** The position in block order of the `n`-th pixel of a plane. */
  function BlockOrder(n: nat): nat {
    (n / 1928 / 8 * 241 + n % 1928 / 8) * 64 + n / 1928 % 8 * 8 + n % 1928 % 8
  }

  lemma PixelOfBlock(band: nat, col: nat, r: nat, k: nat)
    requires col < 241 && r < 8 && k < 8
    ensures BlockOrder((band * 8 + r) * 1928 + col * 8 + k) == (band * 241 + col) * 64 + r * 8 + k
  {
    var row, x := band * 8 + r, col * 8 + k;
    DivUnique(row * 1928 + x, 1928, row, x);
    DivUnique(row, 8, band, r);
    DivUnique(x, 8, col, k);
  }

  /** Pixel `(row, x)` belongs to block `row/8 * 241 + x/8`. */
  lemma BlockOfPixel(row: nat, x: nat)
    requires x < 1928
    ensures BlockOrder(row * 1928 + x) == (row / 8 * 241 + x / 8) * 64 + row % 8 * 8 + x % 8
  {
    DivUnique(row * 1928 + x, 1928, row, x);
  }

  lemma BlockOrderBound(n: nat)
    requires n < 544 * 1928
    ensures BlockOrder(n) < 16388 * 64
  {
    assert n / 1928 / 8 <= 67 && n % 1928 / 8 <= 240;
  }

  /** Every place is written by one pixel of one block. */
  lemma BlockOrderInjective(n: nat, m: nat)
    requires BlockOrder(n) == BlockOrder(m)
    ensures n == m
  {
    BlockOrderParts(n);
    BlockOrderParts(m);
  }

  lemma BlockOrderParts(n: nat)
    ensures var o := BlockOrder(n);
            n == (o / 64 / 241 * 8 + o % 64 / 8) * 1928 + o / 64 % 241 * 8 + o % 64 % 8
  {
    var row, x := n / 1928, n % 1928;
    var band, r, col, k := row / 8, row % 8, x / 8, x % 8;
    assert n == row * 1928 + x && row == band * 8 + r && x == col * 8 + k;
    var o := BlockOrder(n);
    DivUnique(o, 64, band * 241 + col, r * 8 + k);
    DivUnique(r * 8 + k, 8, r, k);
    DivUnique(band * 241 + col, 241, band, col);
  }

  // ---------------------------------------------------------------------------------------
  // One plane
  // ---------------------------------------------------------------------------------------

  predicate IsCurve(curve: seq<nat>) {
    |curve| == 0x1_0000
  }

  function Rendered(coeffs: seq<seq<int>>, idct: Idct, curve: seq<nat>, n: nat): nat
    requires IsCurve(curve) && BlockOrder(n) / 64 < |coeffs|
  {
    curve[idct(coeffs[BlockOrder(n) / 64])[BlockOrder(n) % 64]]
  }

  lemma RenderedBlocks(n: nat)
    requires n < 544 * 1928
    ensures BlockOrder(n) / 64 < 16388
  {
    hide BlockOrder;
    BlockOrderBound(n);
  }

  function RenderedPlane(coeffs: seq<seq<int>>, idct: Idct, curve: seq<nat>): (plane: seq<nat>)
    requires IsCurve(curve) && |coeffs| == NB
    ensures |plane| == PLANE_H * PLANE_W
  {
    seq(PLANE_H * PLANE_W, n requires 0 <= n < PLANE_H * PLANE_W => RenderedBlocks(n); Rendered(coeffs, idct, curve, n))
  }

  /** The tables and the quantiser of a scan. */
  function ScanTables(info: TileInfo, scan: nat): Result<(seq<nat>, seq<nat>, seq<nat>), FrameError> {
    if scan !in info.dht then Err(TableMissing(scan))
    else if 0x10 + scan !in info.dht then Err(TableMissing(0x10 + scan))
    else
      var dc := Table(info.dht[scan].counts, info.dht[scan].syms);
      var ac := Table(info.dht[0x10 + scan].counts, info.dht[0x10 + scan].syms);
      if dc.Err? then Err(BadTable(dc.error))
      else if ac.Err? then Err(BadTable(ac.error))
      else if 0 !in info.dqt then Err(BadScan(NoDqt))
      else Ok((dc.value, ac.value, info.dqt[0]))
  }

  lemma ScanTablesUsable(info: TileInfo, scan: nat)
    requires ScanTables(info, scan).Ok?
    ensures var t := ScanTables(info, scan).value; IsTable(t.0) && IsTable(t.1)
  {
    BuiltIsTable(info.dht[scan].counts, info.dht[scan].syms);
    BuiltIsTable(info.dht[0x10 + scan].counts, info.dht[0x10 + scan].syms);
  }

  /** The DC chain and the coefficients of a scan of a parsed tile. */
  function ScanCoefficients(tile: seq<byte>, info: TileInfo, scan: nat): Result<(seq<int>, seq<seq<int>>), FrameError>
    requires scan < |info.sos| ==> info.sos[scan].1 <= info.sos[scan].2 <= |tile|
  {
    if scan >= |info.sos| then Err(BadTile(NoEoi))
    else
      var t :- ScanTables(info, scan);
      ScanTablesUsable(info, scan);
      var (_, from, to) := info.sos[scan];
      match Decoded(tile[from..to], t.0, t.1, t.2, NB)
      case Err(e) => Err(BadScan(e))
      case Ok(c) => Ok(c)
  }

  lemma {:induction false} BlocksCounted(s: Stream, hDc: seq<nat>, hAc: seq<nat>, quant: seq<nat>, n: nat, vpred: int)
    requires IsTable(hDc) && IsTable(hAc) && |quant| == 64
    ensures var r := ReadBlocks(s, hDc, hAc, quant, n, vpred); r.Ok? ==> |r.value.0| == |r.value.1| == n
    decreases n
  {
    hide IsTable, ReadBlock;
    if n > 0 {
      var block := ReadBlock(s, hDc, hAc, quant, vpred);
      if block.Ok? {
        BlocksCounted(block.value.2, hDc, hAc, quant, n - 1, block.value.0);
      }
    }
  }

  lemma CoefficientsCounted(tile: seq<byte>, info: TileInfo, scan: nat)
    requires scan < |info.sos| ==> info.sos[scan].1 <= info.sos[scan].2 <= |tile|
    ensures var r := ScanCoefficients(tile, info, scan); r.Ok? ==> |r.value.1| == NB
  {
    hide IsTable, ReadBlocks, ScanTables, Unstuff, ByteBits, EndingOf;
    if scan < |info.sos| && ScanTables(info, scan).Ok? {
      var t := ScanTables(info, scan).value;
      ScanTablesUsable(info, scan);
      var (_, from, to) := info.sos[scan];
      if |t.2| == 64 {
        BlocksCounted(Stream(ByteBits(Unstuff(tile[from..to])), EndingOf(tile[from..to])), t.0, t.1, t.2, NB, VPRED0);
      }
    }
  }

  /** The pixels of one block go to their rows. */
  method RenderBlock(plane: array<nat>, coeffs: seq<seq<int>>, idct: Idct, curve: seq<nat>, bi: nat)
    requires IsCurve(curve) && |coeffs| == NB && bi < NB && Written(plane[..], coeffs, idct, curve, bi * 64)
    modifies plane
    ensures Written(plane[..], coeffs, idct, curve, bi * 64 + 64)
  {
    hide BlockOrder, Written;
    var band, col := bi / NBLK_W, bi % NBLK_W;
    var px := idct(coeffs[bi]);
    for r := 0 to 8
      invariant Written(plane[..], coeffs, idct, curve, bi * 64 + r * 8)
    {
      var base := (band * 8 + r) * (NBLK_W * 8) + col * 8;
      for k := 0 to 8
        invariant Written(plane[..], coeffs, idct, curve, bi * 64 + r * 8 + k)
      {
        PixelOfBlock(band, col, r, k);
        WrittenSize(plane[..], coeffs, idct, curve, bi * 64 + r * 8 + k);
        WriteStep(plane[..], coeffs, idct, curve, bi, r, k, base + k);
        plane[base + k] := curve[px[r * 8 + k]];
      }
    }
  }

  lemma WrittenSize(plane: seq<nat>, coeffs: seq<seq<int>>, idct: Idct, curve: seq<nat>, o: nat)
    requires IsCurve(curve) && |coeffs| == NB && Written(plane, coeffs, idct, curve, o)
    ensures |plane| == 544 * 1928
  {
  }

  method RenderPlane(coeffs: seq<seq<int>>, idct: Idct, curve: seq<nat>) returns (r: seq<nat>)
    requires IsCurve(curve) && |coeffs| == NB
    ensures r == RenderedPlane(coeffs, idct, curve)
  {
    hide BlockOrder, Rendered;
    var plane := new nat[PLANE_H * PLANE_W](_ => 0);
    for bi := 0 to NB
      invariant Written(plane[..], coeffs, idct, curve, bi * 64)
    {
      RenderBlock(plane, coeffs, idct, curve, bi);
    }
    WrittenAll(plane[..], coeffs, idct, curve);
    return plane[..];
  }

  /** The pixels below position `o` in block order are in place. */
  ghost predicate Written(plane: seq<nat>, coeffs: seq<seq<int>>, idct: Idct, curve: seq<nat>, o: nat)
    requires IsCurve(curve) && |coeffs| == NB
  {
    && |plane| == 544 * 1928
    && forall n :: 0 <= n < |plane| && BlockOrder(n) < o ==>
         BlockOrder(n) / 64 < |coeffs| && plane[n] == Rendered(coeffs, idct, curve, n)
  }

  lemma WriteStep(plane: seq<nat>, coeffs: seq<seq<int>>, idct: Idct, curve: seq<nat>, bi: nat, r: nat, k: nat, at: nat)
    requires IsCurve(curve) && |coeffs| == NB && bi < NB && r < 8 && k < 8 && at < |plane|
    requires BlockOrder(at) == bi * 64 + r * 8 + k && Written(plane, coeffs, idct, curve, bi * 64 + r * 8 + k)
    ensures Written(plane[at := curve[idct(coeffs[bi])[r * 8 + k]]], coeffs, idct, curve, bi * 64 + r * 8 + k + 1)
  {
    hide BlockOrder;
    var o := bi * 64 + r * 8 + k;
    assert o / 64 == bi && o % 64 == r * 8 + k;
    var plane' := plane[at := curve[idct(coeffs[bi])[r * 8 + k]]];
    forall n | 0 <= n < |plane'| && BlockOrder(n) < o + 1
      ensures BlockOrder(n) / 64 < |coeffs| && plane'[n] == Rendered(coeffs, idct, curve, n)
    {
      if BlockOrder(n) == o {
        BlockOrderInjective(n, at);
      }
    }
  }

  lemma WrittenAll(plane: seq<nat>, coeffs: seq<seq<int>>, idct: Idct, curve: seq<nat>)
    requires IsCurve(curve) && |coeffs| == NB && Written(plane, coeffs, idct, curve, NB * 64)
    ensures plane == RenderedPlane(coeffs, idct, curve)
  {
    hide BlockOrder, Rendered;
    forall n | 0 <= n < |plane|
      ensures plane[n] == RenderedPlane(coeffs, idct, curve)[n]
    {
      BlockOrderBound(n);
    }
  }

  /** A scan that a parsed tile offers lies inside the tile. */
  ghost predicate ScanInside(tile: seq<byte>, info: TileInfo, scan: nat) {
    scan < |info.sos| ==> info.sos[scan].1 <= info.sos[scan].2 <= |tile|
  }

  lemma ParsedInside(tile: seq<byte>, scan: nat)
    requires Parsed(tile).Ok?
    ensures ScanInside(tile, Parsed(tile).value, scan)
  {
    hide Parsed, EndingOf;
    AcceptedScansClean(tile);
    var sos := Parsed(tile).value.sos;
    if scan < |sos| {
      assert CleanScan(tile, sos[scan]);
    }
  }

  method DecodeScanPlane(tile: seq<byte>, info: TileInfo, scan: nat, idct: Idct, curve: seq<nat>)
    returns (r: Result<(seq<nat>, seq<int>), FrameError>)
    requires IsCurve(curve) && ScanInside(tile, info, scan)
    ensures match ScanCoefficients(tile, info, scan)
            case Err(e) => r == Err(e)
            case Ok(c) => |c.1| == NB && r == Ok((RenderedPlane(c.1, idct, curve), c.0))
  {
    hide Decoded, Table, RenderedPlane, IsTable;
    CoefficientsCounted(tile, info, scan);
    if scan >= |info.sos| {
      return Err(BadTile(NoEoi));
    }
    if scan !in info.dht {
      return Err(TableMissing(scan));
    }
    if 0x10 + scan !in info.dht {
      return Err(TableMissing(0x10 + scan));
    }
    var td, ta := info.dht[scan], info.dht[0x10 + scan];
    var hDc := MakeDecoderRef(td.counts, td.syms);
    if hDc.Err? {
      return Err(BadTable(hDc.error));
    }
    var hAc := MakeDecoderRef(ta.counts, ta.syms);
    if hAc.Err? {
      return Err(BadTable(hAc.error));
    }
    if 0 !in info.dqt {
      return Err(BadScan(NoDqt));
    }
    ScanTablesUsable(info, scan);
    var (_, from, to) := info.sos[scan];
    var c := DecodeScan(tile[from..to], hDc.value, hAc.value, info.dqt[0], NB);
    if c.Err? {
      return Err(BadScan(c.error));
    }
    var plane := RenderPlane(c.value.1, idct, curve);
    return Ok((plane, c.value.0));
  }

  // ---------------------------------------------------------------------------------------
  // Four tiles, two scans each
  // ---------------------------------------------------------------------------------------

  const TILE_W: nat := 1928
  const TILE_H: nat := 1088
  const FRAME_W: nat := 3856

  /** The plane of one scan of one tile. */
  function PlaneOf(tile: seq<byte>, scan: nat, idct: Idct, curve: seq<nat>): (r: Result<seq<nat>, FrameError>)
    requires IsCurve(curve)
    ensures r.Ok? ==> |r.value| == PLANE_H * PLANE_W
  {
    match Parsed(tile)
    case Err(e) => Err(BadTile(e))
    case Ok(info) =>
      ParsedInside(tile, scan);
      CoefficientsCounted(tile, info, scan);
      var c :- ScanCoefficients(tile, info, scan);
      Ok(RenderedPlane(c.1, idct, curve))
  }

  /** The first `k` planes, tile by tile and scan by scan, or the first failure. */
  function Planes(tiles: seq<seq<byte>>, k: nat, idct: Idct, curve: seq<nat>): (r: Result<seq<seq<nat>>, FrameError>)
    requires IsCurve(curve) && |tiles| == 4 && k <= 8
    ensures r.Ok? ==> |r.value| == k && forall j :: 0 <= j < k ==> |r.value[j]| == PLANE_H * PLANE_W
  {
    if k == 0 then Ok([])
    else
      var before :- Planes(tiles, k - 1, idct, curve);
      var plane :- PlaneOf(tiles[(k - 1) / 2], (k - 1) % 2, idct, curve);
      Ok(before + [plane])
  }

  /** Which plane row the `f`-th pixel of the frame comes from, counted over all planes. */
  function RowOrder(f: nat): nat {
    var y, x := f / 3856, f % 3856;
    ((y / 1088 * 2 + x / 1928) * 2 + y % 1088 % 2) * 544 + y % 1088 / 2
  }

  /** Row `p` of scan `scan` of tile `ti` is written from this place of the frame on. */
  function RowStart(ti: nat, scan: nat, p: nat): nat {
    (ti / 2 * 1088 + 2 * p + scan) * 3856 + ti % 2 * 1928
  }

  /** A place belongs to a plane row exactly when it lies in the stretch the row is copied to. */
  lemma RowPlace(ti: nat, scan: nat, p: nat, f: nat)
    requires ti < 4 && scan < 2 && p < 544
    ensures RowOrder(f) == (ti * 2 + scan) * 544 + p && f < 3856 * 2176
            <==> RowStart(ti, scan, p) <= f < RowStart(ti, scan, p) + 1928
    ensures RowStart(ti, scan, p) <= f < RowStart(ti, scan, p) + 1928
            ==> f / 3856 == ti / 2 * 1088 + 2 * p + scan && f % 3856 % 1928 == f - RowStart(ti, scan, p)
  {
    if RowStart(ti, scan, p) <= f < RowStart(ti, scan, p) + 1928 {
      InRowPlace(ti, scan, p, f);
    }
    if RowOrder(f) == (ti * 2 + scan) * 544 + p && f < 3856 * 2176 {
      RowOrderParts(ti, scan, p, f);
    }
  }

  lemma InRowPlace(ti: nat, scan: nat, p: nat, f: nat)
    requires ti < 4 && scan < 2 && p < 544 && RowStart(ti, scan, p) <= f < RowStart(ti, scan, p) + 1928
    ensures RowOrder(f) == (ti * 2 + scan) * 544 + p && f < 3856 * 2176
    ensures f / 3856 == ti / 2 * 1088 + 2 * p + scan && f % 3856 % 1928 == f - RowStart(ti, scan, p)
  {
    var y, c := ti / 2 * 1088 + 2 * p + scan, f - RowStart(ti, scan, p);
    DivUnique(f, 3856, y, ti % 2 * 1928 + c);
    DivUnique(y, 1088, ti / 2, 2 * p + scan);
    DivUnique(2 * p + scan, 2, p, scan);
    DivUnique(ti % 2 * 1928 + c, 1928, ti % 2, c);
  }

  lemma RowOrderParts(ti: nat, scan: nat, p: nat, f: nat)
    requires ti < 4 && scan < 2 && p < 544 && f < 3856 * 2176 && RowOrder(f) == (ti * 2 + scan) * 544 + p
    ensures RowStart(ti, scan, p) <= f < RowStart(ti, scan, p) + 1928
  {
    var y, x := f / 3856, f % 3856;
    var a, b := y / 1088 * 2 + x / 1928, y % 1088 % 2;
    DivUnique(RowOrder(f), 544, a * 2 + b, y % 1088 / 2);
    DivUnique(RowOrder(f), 544, ti * 2 + scan, p);
    DivUnique(a * 2 + b, 2, a, b);
    DivUnique(ti * 2 + scan, 2, ti, scan);
    DivUnique(a, 2, y / 1088, x / 1928);
  }

  /** The `f`-th pixel of the frame: its plane row, at its column within the tile. */
  function Source(planes: seq<seq<nat>>, f: nat): nat
    requires RowOrder(f) / 544 < |planes| && |planes[RowOrder(f) / 544]| == 544 * 1928
  {
    planes[RowOrder(f) / 544][RowOrder(f) % 544 * 1928 + f % 3856 % 1928]
  }

  ghost predicate AllPlanes(planes: seq<seq<nat>>) {
    forall j :: 0 <= j < |planes| ==> |planes[j]| == 544 * 1928
  }

  /** The places fed by plane rows before the `o`-th hold their pixels. */
  ghost predicate Copied(frame: seq<nat>, planes: seq<seq<nat>>, height: nat, o: nat)
    requires AllPlanes(planes)
  {
    && |frame| == 3856 * height
    && forall f :: 0 <= f < |frame| && RowOrder(f) < o ==> RowOrder(f) / 544 < |planes| && frame[f] == Source(planes, f)
  }

  lemma CopiedNone(frame: seq<nat>, height: nat)
    requires |frame| == 3856 * height
    ensures Copied(frame, [], height, 0)
  {
    hide RowOrder;
  }

  lemma CopiedMore(frame: seq<nat>, planes: seq<seq<nat>>, plane: seq<nat>, height: nat, o: nat)
    requires AllPlanes(planes) && |plane| == 544 * 1928 && Copied(frame, planes, height, o)
    ensures AllPlanes(planes + [plane]) && Copied(frame, planes + [plane], height, o)
  {
    hide RowOrder;
  }

  lemma CopyStep(frame: seq<nat>, frame': seq<nat>, planes: seq<seq<nat>>, height: nat, ti: nat, scan: nat, p: nat)
    requires AllPlanes(planes) && |planes| == ti * 2 + scan + 1 && height <= 2176 && ti < 4 && scan < 2 && p < 544
    requires Copied(frame, planes, height, (ti * 2 + scan) * 544 + p) && |frame'| == |frame|
    requires ti / 2 * 1088 + 2 * p + scan < height
             ==> var start := RowStart(ti, scan, p);
                 && (forall f :: 0 <= f < |frame| && !(start <= f < start + 1928) ==> frame'[f] == frame[f])
                 && start + 1928 <= |frame|
                 && frame'[start..start + 1928] == planes[ti * 2 + scan][p * 1928..p * 1928 + 1928]
    requires ti / 2 * 1088 + 2 * p + scan >= height ==> frame' == frame
    ensures Copied(frame', planes, height, (ti * 2 + scan) * 544 + p + 1)
  {
    hide RowOrder, RowStart;
    var o, start := (ti * 2 + scan) * 544 + p, RowStart(ti, scan, p);
    forall f | 0 <= f < |frame'| && RowOrder(f) < o + 1
      ensures RowOrder(f) / 544 < |planes| && frame'[f] == Source(planes, f)
    {
      RowPlace(ti, scan, p, f);
      if RowOrder(f) == o {
        DivUnique(o, 544, ti * 2 + scan, p);
        assert f / 3856 < height;
        assert frame'[f] == frame'[start..start + 1928][f - start] == planes[ti * 2 + scan][p * 1928..p * 1928 + 1928][f - start];
      }
    }
  }

  lemma RowFits(ti: nat, scan: nat, p: nat, height: nat)
    requires ti < 4 && ti / 2 * 1088 + 2 * p + scan < height
    ensures RowStart(ti, scan, p) + 1928 <= 3856 * height
  {
  }

  lemma OrderOfPixel(y: nat, x: nat)
    requires x < 3856 && y < 2176
    ensures RowOrder(y * 3856 + x) < 4352
    ensures RowOrder(y * 3856 + x) / 544 == (y / 1088 * 2 + x / 1928) * 2 + y % 1088 % 2
    ensures RowOrder(y * 3856 + x) % 544 == y % 1088 / 2 && (y * 3856 + x) % 3856 == x
  {
    DivUnique(y * 3856 + x, 3856, y, x);
    PixelInside(y, x);
    DivUnique(RowOrder(y * 3856 + x), 544, (y / 1088 * 2 + x / 1928) * 2 + y % 1088 % 2, y % 1088 / 2);
  }

  lemma PixelInside(y: nat, x: nat)
    requires y < 2176 && x < 3856
    ensures (y / 1088 * 2 + x / 1928) * 2 + y % 1088 % 2 < 8
    ensures y % 1088 / 2 < 544 && y % 1088 / 2 * 1928 + x % 1928 < 544 * 1928
  {
    assert y % 1088 / 2 <= 543;
  }

  /** Pixel `(y, x)`: tile `(y / 1088, x / 1928)`, scan `y % 1088 % 2`, and there row
      `y % 1088 / 2`, column `x % 1928`. */
  function PlanePixel(planes: seq<seq<nat>>, y: nat, x: nat): nat
    requires AllPlanes(planes) && |planes| == 8 && y < 2176 && x < 3856
  {
    PixelInside(y, x);
    planes[(y / 1088 * 2 + x / 1928) * 2 + y % 1088 % 2][y % 1088 / 2 * 1928 + x % 1928]
  }

  /** Every pixel of the frame is the one pixel of the one plane it stands for. */
  ghost predicate IsFrame(frame: seq<nat>, planes: seq<seq<nat>>, height: nat)
    requires AllPlanes(planes) && |planes| == 8 && height <= 2176
  {
    && |frame| == 3856 * height
    && forall y, x :: 0 <= y < height && 0 <= x < 3856 ==> FrameAt(frame, y, x) == PlanePixel(planes, y, x)
  }

  function FrameAt(frame: seq<nat>, y: nat, x: nat): nat {
    if y * 3856 + x < |frame| then frame[y * 3856 + x] else 0
  }

  lemma CopiedAll(frame: seq<nat>, planes: seq<seq<nat>>, height: nat)
    requires AllPlanes(planes) && |planes| == 8 && height <= 2176 && Copied(frame, planes, height, 4352)
    ensures IsFrame(frame, planes, height)
  {
    hide RowOrder;
    forall y, x | 0 <= y < height && 0 <= x < 3856
      ensures FrameAt(frame, y, x) == PlanePixel(planes, y, x)
    {
      OrderOfPixel(y, x);
      PixelInside(y, x);
      assert y * 3856 + x < |frame|;
      assert RowOrder(y * 3856 + x) < 4352;
    }
  }

  lemma {:induction false} PlanesFail(tiles: seq<seq<byte>>, k: nat, j: nat, idct: Idct, curve: seq<nat>)
    requires IsCurve(curve) && |tiles| == 4 && k <= j <= 8 && Planes(tiles, k, idct, curve).Err?
    ensures Planes(tiles, j, idct, curve) == Planes(tiles, k, idct, curve)
    decreases j
  {
    hide PlaneOf;
    if k < j {
      PlanesFail(tiles, k, j - 1, idct, curve);
    }
  }

  lemma PlanesStep(tiles: seq<seq<byte>>, ti: nat, scan: nat, idct: Idct, curve: seq<nat>, planes: seq<seq<nat>>, all: nat)
    requires all == 8
    requires IsCurve(curve) && |tiles| == 4 && ti < 4 && scan < 2
    requires Planes(tiles, ti * 2 + scan, idct, curve) == Ok(planes)
    ensures match PlaneOf(tiles[ti], scan, idct, curve)
            case Err(e) => Planes(tiles, all, idct, curve) == Err(e)
            case Ok(plane) => Planes(tiles, ti * 2 + scan + 1, idct, curve) == Ok(planes + [plane])
  {
    hide PlaneOf;
    var k := ti * 2 + scan + 1;
    assert (k - 1) / 2 == ti && (k - 1) % 2 == scan;
    if PlaneOf(tiles[ti], scan, idct, curve).Err? {
      PlanesFail(tiles, k, all, idct, curve);
    }
  }

  lemma PlanesNone(tiles: seq<seq<byte>>, idct: Idct, curve: seq<nat>)
    requires IsCurve(curve) && |tiles| == 4
    ensures Planes(tiles, 0, idct, curve) == Ok([])
  {
  }

  /** Copying the rows of one plane, those beyond the frame's height left out. */
  method CopyPlane(frame: array<nat>, plane: seq<nat>, ti: nat, scan: nat, ty0: nat, tx0: nat, width: nat, height: nat, ghost planes: seq<seq<nat>>)
    requires ti < 4 && scan < 2 && ty0 == ti / 2 * 1088 && tx0 == ti % 2 * 1928 && width == 3856 && height <= 2176
    requires AllPlanes(planes) && |planes| == ti * 2 + scan + 1 && plane == planes[ti * 2 + scan]
    requires frame.Length == 3856 * height && Copied(frame[..], planes, height, (ti * 2 + scan) * 544)
    modifies frame
    ensures Copied(frame[..], planes, height, (ti * 2 + scan) * 544 + 544)
  {
    hide Copied, RowOrder;
    for p := 0 to 544
      invariant frame.Length == 3856 * height
      invariant Copied(frame[..], planes, height, (ti * 2 + scan) * 544 + p)
    {
      ghost var before := frame[..];
      var y := ty0 + 2 * p + scan;
      if y >= height {
        CopyStep(before, before, planes, height, ti, scan, p);
        continue;
      }
      var start := y * width + tx0;
      RowFits(ti, scan, p, height);
      forall c | 0 <= c < 1928 {
        frame[start + c] := plane[p * 1928 + c];
      }
      RowCopied(before, frame[..], plane, start, p);
      CopyStep(before, frame[..], planes, height, ti, scan, p);
    }
  }

  lemma RowCopied(before: seq<nat>, after: seq<nat>, plane: seq<nat>, start: nat, p: nat)
    requires |after| == |before| && start + 1928 <= |before| && p < 544 && |plane| == 544 * 1928
    requires forall n :: start <= n < start + 1928 ==> after[n] == plane[p * 1928 + (n - start)]
    ensures after[start..start + 1928] == plane[p * 1928..p * 1928 + 1928]
  {
  }

  method AssembleFrame(tiles: seq<seq<byte>>, tw: nat, tl: nat, width: nat, height: nat, idct: Idct, curve: seq<nat>)
    returns (r: Result<seq<nat>, FrameError>)
    requires IsCurve(curve) && tw == TILE_W && tl == TILE_H && width == FRAME_W && height <= 2 * TILE_H
    ensures |tiles| != 4 ==> r == Err(BadTileCount(|tiles|))
    ensures |tiles| == 4 ==>
              match Planes(tiles, 8, idct, curve)
              case Err(e) => r == Err(e)
              case Ok(planes) => r.Ok? && IsFrame(r.value, planes, height)
  {
    hide Planes, ScanCoefficients, Parsed, RenderedPlane, Copied, RowOrder, RowStart, IsFrame;
    if |tiles| != 4 {
      return Err(BadTileCount(|tiles|));
    }
    var frame := new nat[width * height](_ => 0);
    ghost var planes: seq<seq<nat>> := [];
    PlanesNone(tiles, idct, curve);
    CopiedNone(frame[..], height);
    for ti := 0 to 4
      invariant |planes| == ti * 2 && AllPlanes(planes) && Planes(tiles, ti * 2, idct, curve) == Ok(planes)
      invariant Copied(frame[..], planes, height, ti * 1088)
    {
      PlanesStep(tiles, ti, 0, idct, curve, planes, 8);
      var info := ParseTile(tiles[ti]);
      if info.Err? {
        return Err(BadTile(info.error));
      }
      var ty0, tx0 := ti / 2 * tl, ti % 2 * tw;
      for scan := 0 to 2
        invariant |planes| == ti * 2 + scan && AllPlanes(planes) && Planes(tiles, ti * 2 + scan, idct, curve) == Ok(planes)
        invariant Copied(frame[..], planes, height, (ti * 2 + scan) * 544)
      {
        PlanesStep(tiles, ti, scan, idct, curve, planes, 8);
        ParsedInside(tiles[ti], scan);
        var plane := DecodeScanPlane(tiles[ti], info.value, scan, idct, curve);
        if plane.Err? {
          return Err(plane.error);
        }
        CopiedMore(frame[..], planes, plane.value.0, height, (ti * 2 + scan) * 544);
        planes := planes + [plane.value.0];
        CopyPlane(frame, plane.value.0, ti, scan, ty0, tx0, width, height, planes);
      }
    }
    CopiedAll(frame[..], planes, height);
    return Ok(frame[..]);
  }
}
