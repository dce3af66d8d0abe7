/** Decoding a frame inverts its coding (tool/src/dct2s.rs): four tiles whose two scans are
    coded blocks give back, pixel by pixel, the inverse transform of those blocks. */
module FrameInverse {
  import opened Prelude
  import opened Huffman
  import opened BitReader
  import opened Scan
  import opened ScanInverse
  import opened Tile
  import opened TileBuild
  import opened Frame

  /** One scan: its tables, its blocks in raster order, and the bits that fill the last bytes. */
  datatype CodedScan = CodedScan(dc: HuffTable, ac: HuffTable, blocks: seq<Block>, tail: seq<bit>, header: seq<byte>) {
    ghost predicate Valid() {
      && dc.Valid() && ac.Valid() && |blocks| == NB && BlocksCodable(dc, ac, blocks)
      && |dc.syms| == SumCounts(dc.counts, MAX_LENGTH) && |ac.syms| == SumCounts(ac.counts, MAX_LENGTH)
      && |CodeBlocks(dc, ac, blocks) + tail| % 8 == 0 && |header| <= LONGEST
    }

    /** All reads up to those of block `k` have their windows filled. */
    ghost predicate FilledThrough(k: nat)
      requires Valid()
    {
      k < NB && FilledFor(dc, ac, blocks, k + 1, |tail|)
    }

    ghost function Data(): seq<byte>
      requires Valid()
    {
      Stuff(Pack(CodeBlocks(dc, ac, blocks) + tail))
    }

    /** The block of a pixel, dequantised. */
    function Coefficients(quant: seq<nat>, k: nat): seq<int>
      requires |quant| == 64 && k < |blocks| && |blocks[k].ac| == 63
    {
      Placed(Blank(VpredAt(blocks, k + 1, quant[0], VPRED0)), blocks[k].ac, quant, 1)
    }
  }

  /** A tile in the layout of the format: quantiser, four tables, frame header, two scans. */
  datatype CodedTile = CodedTile(quant: seq<nat>, sof: seq<byte>, scan0: CodedScan, scan1: CodedScan) {
    ghost predicate Valid() {
      && |quant| == 64 && (forall t :: 0 <= t < 64 ==> quant[t] < 0x1_0000)
      && scan0.Valid() && scan1.Valid() && |sof| <= LONGEST
    }

    function Scan(k: nat): CodedScan {
      if k == 0 then scan0 else scan1
    }

    ghost function Segments(): seq<Segment>
      requires Valid()
    {
      [Quantisers([(0, quant)]),
       Tables([(0x00, scan0.dc)]), Tables([(0x01, scan1.dc)]), Tables([(0x10, scan0.ac)]), Tables([(0x11, scan1.ac)]),
       Skipped(0xC1, sof), ScanOf(scan0.header, scan0.Data()), ScanOf(scan1.header, scan1.Data())]
    }

    ghost function Bytes(): seq<byte>
      requires Valid()
    {
      SegmentsWritable(this);
      TileBytes([0xFF, 0xD8], Segments(), [])
    }
  }

  lemma {:induction false} SumCountsBound(counts: seq<byte>, l: nat)
    requires l <= |counts|
    ensures SumCounts(counts, l) <= 255 * l
  {
    if l > 0 {
      SumCountsBound(counts, l - 1);
    }
  }

  lemma OneTable(id: byte, t: HuffTable)
    requires |t.counts| == MAX_LENGTH && |t.syms| == SumCounts(t.counts, MAX_LENGTH)
    ensures Writable(Tables([(id, t)]))
    ensures forall dht: map<nat, HuffTable> :: AddTables(dht, [(id, t)]) == dht[id := t]
  {
    hide SumCounts;
    SumCountsBound(t.counts, MAX_LENGTH);
    var one := [(id, t)];
    assert one[1..] == [];
    assert TableBytes(one) == [id] + t.counts + t.syms + TableBytes([]);
  }

  lemma OneQuantiser(q: seq<nat>)
    requires |q| == 64 && forall t :: 0 <= t < 64 ==> q[t] < 0x1_0000
    ensures Writable(Quantisers([(0, q)]))
    ensures forall dqt: map<nat, seq<nat>> :: AddQuants(dqt, [(0, q)]) == dqt[0 := q]
  {
    hide Words;
    WordsSize(q);
    var one: seq<(byte, seq<nat>)> := [(0, q)];
    assert one[1..] == [];
    assert QuantBytes(one) == [0] + Words(q) + QuantBytes([]);
  }

  lemma SegmentsWritable(t: CodedTile)
    requires t.Valid()
    ensures AllWritable(t.Segments())
  {
    hide Writable, SumCounts, CodeBlocks, BlocksCodable, Kraft, Table, HuffTable.Expanded, Stuff, Pack;
    OneQuantiser(t.quant);
    OneTable(0x00, t.scan0.dc);
    OneTable(0x01, t.scan1.dc);
    OneTable(0x10, t.scan0.ac);
    OneTable(0x11, t.scan1.ac);
    ScanWritable(t.scan0);
    ScanWritable(t.scan1);
    SofWritable(t.sof);
  }

  lemma SofWritable(sof: seq<byte>)
    requires |sof| <= LONGEST
    ensures Writable(Skipped(0xC1, sof))
  {
  }

  lemma ScanWritable(s: CodedScan)
    requires s.Valid()
    ensures Writable(ScanOf(s.header, s.Data()))
  {
    hide CodeBlocks, BlocksCodable, Stuff, Pack, EndingOf, HuffTable.Valid, HuffTable.Expanded;
    UnstuffStuff(Pack(CodeBlocks(s.dc, s.ac, s.blocks) + s.tail));
  }

  // ---------------------------------------------------------------------------------------
  // What the walk over a coded tile finds
  // ---------------------------------------------------------------------------------------

  function ScanDatas(segments: seq<Segment>): seq<seq<byte>> {
    if segments == [] then []
    else (if segments[0].ScanOf? then [segments[0].data] else []) + ScanDatas(segments[1..])
  }

  /** The scans recorded from the `n`-th on hold the given data. */
  ghost predicate ScansHold(tile: seq<byte>, sos: seq<(nat, nat, nat)>, n: nat, datas: seq<seq<byte>>) {
    && |sos| == n + |datas|
    && forall k :: n <= k < |sos| ==> sos[k].1 <= sos[k].2 <= |tile| && tile[sos[k].1..sos[k].2] == datas[k - n]
  }

  /** Each scan is found with its data, in order. */
  lemma {:induction false} ScansBack(tile: seq<byte>, i: nat, segments: seq<Segment>, info: TileInfo)
    requires AllWritable(segments) && At(tile, i, AllBytes(segments))
    ensures var sos := AddAll(info, segments, i).sos;
            ScansHold(tile, sos, |info.sos|, ScanDatas(segments)) && sos[..|info.sos|] == info.sos
    decreases |segments|
  {
    hide At, Writable, TileBuild.Bytes, AddTables, AddQuants, ScansHold;
    if segments == [] {
      NoScansLeft(tile, info.sos);
    } else {
      var s, more := segments[0], AllBytes(segments[1..]);
      AtSplit(tile, i, TileBuild.Bytes(s), more);
      var info' := Add(info, s, i);
      ScansBack(tile, i + |TileBuild.Bytes(s)|, segments[1..], info');
      if s.ScanOf? {
        ScanSlice(tile, i, s);
        ScansCount(tile, AddAll(info, segments, i).sos, |info'.sos|, ScanDatas(segments[1..]));
        FirstScan(tile, AddAll(info, segments, i).sos, info.sos, (i, i + 4 + |s.header|, i + 4 + |s.header| + |s.data|), s.data, ScanDatas(segments[1..]));
      } else {
        assert [] + ScanDatas(segments[1..]) == ScanDatas(segments[1..]);
      }
    }
  }

  lemma NoScansLeft(tile: seq<byte>, sos: seq<(nat, nat, nat)>)
    ensures ScansHold(tile, sos, |sos|, []) && sos[..|sos|] == sos
  {
  }

  lemma ScansCount(tile: seq<byte>, sos: seq<(nat, nat, nat)>, n: nat, datas: seq<seq<byte>>)
    requires ScansHold(tile, sos, n, datas)
    ensures |sos| == n + |datas|
  {
  }

  lemma FirstScan(tile: seq<byte>, sos: seq<(nat, nat, nat)>, before: seq<(nat, nat, nat)>, s: (nat, nat, nat), data: seq<byte>, datas: seq<seq<byte>>)
    requires ScansHold(tile, sos, |before| + 1, datas) && |before| < |sos| && sos[..|before| + 1] == before + [s]
    requires s.1 <= s.2 <= |tile| && tile[s.1..s.2] == data
    ensures ScansHold(tile, sos, |before|, [data] + datas) && sos[..|before|] == before
  {
    assert sos[|before|] == sos[..|before| + 1][|before|] == s;
    assert sos[..|before|] == sos[..|before| + 1][..|before|];
  }

  lemma ScanSlice(tile: seq<byte>, i: nat, s: Segment)
    requires Writable(s) && s.ScanOf? && At(tile, i, TileBuild.Bytes(s))
    ensures var from := i + 4 + |s.header|;
            from + |s.data| <= |tile| && tile[from..from + |s.data|] == s.data
  {
    hide At, Framed, TableBytes, QuantBytes, TileBuild.TablesFit, QuantsFit, EndingOf;
    FramedSize(0xDA, s.header);
    AtSplit(tile, i, Framed(0xDA, s.header), s.data);
    AtWhole(tile, i + 4 + |s.header|, s.data);
  }

  function AllTables(dht: map<nat, HuffTable>, segments: seq<Segment>): map<nat, HuffTable>
    decreases |segments|
  {
    if segments == [] then dht
    else AllTables(if segments[0].Tables? then AddTables(dht, segments[0].tables) else dht, segments[1..])
  }

  function AllQuants(dqt: map<nat, seq<nat>>, segments: seq<Segment>): map<nat, seq<nat>>
    decreases |segments|
  {
    if segments == [] then dqt
    else AllQuants(if segments[0].Quantisers? then AddQuants(dqt, segments[0].quants) else dqt, segments[1..])
  }

  lemma {:induction false} AddAllTables(info: TileInfo, segments: seq<Segment>, i: nat)
    requires AllWritable(segments)
    ensures AddAll(info, segments, i).dht == AllTables(info.dht, segments)
    ensures AddAll(info, segments, i).dqt == AllQuants(info.dqt, segments)
    decreases |segments|
  {
    hide Writable, TileBuild.Bytes, AddTables, AddQuants;
    if segments != [] {
      AddAllTables(Add(info, segments[0], i), segments[1..], i + |TileBuild.Bytes(segments[0])|);
    }
  }

  lemma TablesFrom(dht: map<nat, HuffTable>, dqt: map<nat, seq<nat>>, s: seq<Segment>, j: nat)
    requires j < |s|
    ensures AllTables(dht, s[j..]) == AllTables(if s[j].Tables? then AddTables(dht, s[j].tables) else dht, s[j + 1..])
    ensures AllQuants(dqt, s[j..]) == AllQuants(if s[j].Quantisers? then AddQuants(dqt, s[j].quants) else dqt, s[j + 1..])
  {
    hide AddTables, AddQuants;
    assert s[j..][1..] == s[j + 1..];
  }

  lemma NoneLeft(dht: map<nat, HuffTable>, dqt: map<nat, seq<nat>>, s: seq<Segment>)
    ensures AllTables(dht, s[|s|..]) == dht && AllQuants(dqt, s[|s|..]) == dqt && s[0..] == s
  {
  }

  /** Tables and quantiser of a coded tile as the walk collects them. */
  lemma TablesFound(t: CodedTile, dht: map<nat, HuffTable>, dqt: map<nat, seq<nat>>)
    requires t.Valid()
    ensures AllTables(dht, t.Segments()) == dht[0x00 := t.scan0.dc][0x01 := t.scan1.dc][0x10 := t.scan0.ac][0x11 := t.scan1.ac]
    ensures AllQuants(dqt, t.Segments()) == dqt[0 := t.quant]
  {
    hide AddTables, AddQuants, AllTables, AllQuants, CodedTile.Valid, CodedScan.Valid, CodedScan.Data, CodedTile.Segments, HuffTable.Valid;
    var s := t.Segments();
    SegmentsAre(t);
    TablesFit(t);
    var d2 := dht[0x00 := t.scan0.dc];
    var d3 := d2[0x01 := t.scan1.dc];
    var d4 := d3[0x10 := t.scan0.ac];
    var d5 := d4[0x11 := t.scan1.ac];
    var q := dqt[0 := t.quant];
    TablesFrom(dht, dqt, s, 0);
    TablesFrom(dht, q, s, 1);
    TablesFrom(d2, q, s, 2);
    TablesFrom(d3, q, s, 3);
    TablesFrom(d4, q, s, 4);
    TablesFrom(d5, q, s, 5);
    TablesFrom(d5, q, s, 6);
    TablesFrom(d5, q, s, 7);
    NoneLeft(d5, q, s);
  }

  lemma SegmentsAre(t: CodedTile)
    requires t.Valid()
    ensures var s := t.Segments();
            && |s| == 8 && s[0] == Quantisers([(0, t.quant)])
            && s[1] == Tables([(0x00, t.scan0.dc)]) && s[2] == Tables([(0x01, t.scan1.dc)])
            && s[3] == Tables([(0x10, t.scan0.ac)]) && s[4] == Tables([(0x11, t.scan1.ac)])
            && s[5].Skipped? && s[6].ScanOf? && s[7].ScanOf?
  {
    hide CodedTile.Valid, CodedScan.Valid, CodedScan.Data;
  }

  lemma TablesFit(t: CodedTile)
    requires t.Valid()
    ensures forall dht: map<nat, HuffTable> :: AddTables(dht, [(0x00, t.scan0.dc)]) == dht[0x00 := t.scan0.dc]
    ensures forall dht: map<nat, HuffTable> :: AddTables(dht, [(0x01, t.scan1.dc)]) == dht[0x01 := t.scan1.dc]
    ensures forall dht: map<nat, HuffTable> :: AddTables(dht, [(0x10, t.scan0.ac)]) == dht[0x10 := t.scan0.ac]
    ensures forall dht: map<nat, HuffTable> :: AddTables(dht, [(0x11, t.scan1.ac)]) == dht[0x11 := t.scan1.ac]
    ensures forall dqt: map<nat, seq<nat>> :: AddQuants(dqt, [(0, t.quant)]) == dqt[0 := t.quant]
  {
    hide SumCounts, CodeBlocks, BlocksCodable, Kraft, Table, HuffTable.Expanded;
    OneQuantiser(t.quant);
    OneTable(0x00, t.scan0.dc);
    OneTable(0x01, t.scan1.dc);
    OneTable(0x10, t.scan0.ac);
    OneTable(0x11, t.scan1.ac);
  }

  /** A coded tile is accepted, with its tables, its quantiser and the data of its two scans. */
  lemma CodedTileParses(t: CodedTile)
    requires t.Valid()
    ensures var r := Parsed(t.Bytes());
            && r.Ok?
            && r.value.dht == map[0x00 := t.scan0.dc, 0x01 := t.scan1.dc, 0x10 := t.scan0.ac, 0x11 := t.scan1.ac]
            && r.value.dqt == map[0 := t.quant]
            && ScansHold(t.Bytes(), r.value.sos, 0, [t.scan0.Data(), t.scan1.Data()])
  {
    hide Writable, TileBuild.Bytes, AllWritable, AddTables, AddQuants, CodedTile.Valid, CodedTile.Segments, AllBytes, AddAll, Parsed, CodedScan.Data, ScansHold;
    SegmentsWritable(t);
    var s, tile := t.Segments(), t.Bytes();
    TileReadsBack([0xFF, 0xD8], s, []);
    AddAllTables(NOTHING, s, 2);
    TablesFound(t, map[], map[]);
    BodyAt(s);
    ScansBack(tile, 2, s, NOTHING);
    ScanDatasOf(t);
  }

  lemma BodyAt(s: seq<Segment>)
    requires AllWritable(s)
    ensures At(TileBytes([0xFF, 0xD8], s, []), 2, AllBytes(s))
  {
    hide AllBytes, AllWritable;
    var body := AllBytes(s) + EOI;
    var start: seq<byte> := [0xFF, 0xD8];
    var tile := TileBytes(start, s, []);
    assert tile[2..2 + |AllBytes(s)|] == AllBytes(s);
  }

  lemma ScanDatasOf(t: CodedTile)
    requires t.Valid()
    ensures ScanDatas(t.Segments()) == [t.scan0.Data(), t.scan1.Data()]
  {
    hide CodedTile.Valid, CodedScan.Valid, CodedScan.Data;
    var s := t.Segments();
    assert s[8..] == [];
    ScanDatasFrom(s, 0);
    ScanDatasFrom(s, 1);
    ScanDatasFrom(s, 2);
    ScanDatasFrom(s, 3);
    ScanDatasFrom(s, 4);
    ScanDatasFrom(s, 5);
    ScanDatasFrom(s, 6);
    ScanDatasFrom(s, 7);
    assert s[0..] == s;
  }

  lemma ScanDatasFrom(s: seq<Segment>, j: nat)
    requires j < |s|
    ensures ScanDatas(s[j..]) == (if s[j].ScanOf? then [s[j].data] else []) + ScanDatas(s[j + 1..])
  {
    assert s[j..][1..] == s[j + 1..];
  }

  // ---------------------------------------------------------------------------------------
  // The planes and the frame
  // ---------------------------------------------------------------------------------------

  /** Decoding a scan's data never fails, and gives every dequantised block up to which the reads
      are filled. */
  lemma ScanDataDecodes(s: CodedScan, quant: seq<nat>, n: nat)
    requires s.Valid() && |quant| == 64 && n <= NB && FilledFor(s.dc, s.ac, s.blocks, n, |s.tail|)
    ensures IsTable(s.dc.Expanded()) && IsTable(s.ac.Expanded())
    ensures var r := Decoded(s.Data(), s.dc.Expanded(), s.ac.Expanded(), quant, NB);
            && r.Ok? && |r.value.1| == NB
            && forall k :: 0 <= k < n ==> r.value.1[k] == s.Coefficients(quant, k)
  {
    hide CodeBlocks, Kraft, Table, HuffTable.Expanded, Stuff, Pack, SumCounts, ReadBlocks, IsTable, Placed, VpredAt, Blank, Decoded,
      DiffCodable, AcCodable, FilledFor;
    DecodedBits(s.dc, s.ac, s.blocks, quant, s.tail);
    BlocksRead(s.dc, s.ac, s.blocks, quant, VPRED0, s.tail, n);
  }

  lemma ScanDecodesThrough(s: CodedScan, quant: seq<nat>)
    requires s.Valid() && |quant| == 64
    ensures IsTable(s.dc.Expanded()) && IsTable(s.ac.Expanded())
    ensures var r := Decoded(s.Data(), s.dc.Expanded(), s.ac.Expanded(), quant, NB);
            && r.Ok? && |r.value.1| == NB
            && forall k :: 0 <= k < NB && s.FilledThrough(k) ==> r.value.1[k] == s.Coefficients(quant, k)
  {
    hide CodedScan.Data, CodedScan.Coefficients, Decoded, IsTable, Kraft, Table, CodeBlocks, HuffTable.Expanded, SumCounts, FilledFor, DiffCodable, AcCodable;
    NothingFilled(s);
    ScanDataDecodes(s, quant, 0);
    forall k | 0 <= k < NB && s.FilledThrough(k)
      ensures Decoded(s.Data(), s.dc.Expanded(), s.ac.Expanded(), quant, NB).value.1[k] == s.Coefficients(quant, k)
    {
      ScanDataDecodes(s, quant, k + 1);
    }
  }

  lemma NothingFilled(s: CodedScan)
    requires s.Valid()
    ensures FilledFor(s.dc, s.ac, s.blocks, 0, |s.tail|)
  {
    hide CodeBlocks, Kraft, Table, HuffTable.Expanded, SumCounts, DiffCodable, AcCodable;
  }

  lemma CodedScanFound(t: CodedTile, k: nat)
    requires t.Valid() && k < 2
    ensures t.Scan(k).Valid()
    ensures Parsed(t.Bytes()).Ok? && ScanInside(t.Bytes(), Parsed(t.Bytes()).value, k)
    ensures var r := ScanCoefficients(t.Bytes(), Parsed(t.Bytes()).value, k);
            && r.Ok? && |r.value.1| == NB
            && forall j :: 0 <= j < NB ==>
                 CodedBlock(t, k, j) && (t.Scan(k).FilledThrough(j) ==> r.value.1[j] == t.Scan(k).Coefficients(t.quant, j))
  {
    hide CodedTile.Bytes, Parsed, Decoded, CodedScan.Data, CodedScan.Coefficients, CodedScan.Valid, CodedScan.FilledThrough, IsTable,
      HuffTable.Expanded, HuffTable.Valid, CodedBlock;
    CodedTileParses(t);
    var s := t.Scan(k);
    ScanTables(s);
    ScanDecodesThrough(s, t.quant);
    ExpandedIsTable(s.dc);
    ExpandedIsTable(s.ac);
    forall j | 0 <= j < NB
      ensures CodedBlock(t, k, j)
    {
      CodedBlocks(t, k, j);
    }
  }

  lemma ScanTables(s: CodedScan)
    requires s.Valid()
    ensures s.dc.Valid() && s.ac.Valid()
  {
    hide CodeBlocks, Kraft, Table, SumCounts;
  }

  lemma ExpandedIsTable(t: HuffTable)
    requires t.Valid()
    ensures Table(t.counts, t.syms) == Ok(t.Expanded())
  {
    hide Table, Kraft;
  }

  ghost predicate CodedBlock(t: CodedTile, k: nat, j: nat) {
    var s := t.Scan(k);
    |t.quant| == 64 && j < |s.blocks| && |s.blocks[j].ac| == 63
  }

  lemma CodedBlocks(t: CodedTile, k: nat, j: nat)
    requires t.Valid() && j < NB
    ensures CodedBlock(t, k, j)
  {
    hide Kraft, Table, CodeBlocks, HuffTable.Expanded, SumCounts, DiffCodable, AcCodable, Pack;
  }

  /** The block of a plane that a pixel lies in, and its place in that block. */
  function BlockAt(row: nat, x: nat): (b: nat)
    ensures row < PLANE_H && x < PLANE_W ==> b < NB
  {
    row / 8 * 241 + x / 8
  }

  function InBlock(row: nat, x: nat): (k: nat)
    ensures k < 64
  {
    row % 8 * 8 + x % 8
  }

  /** The tile and the scan that cover a pixel of the frame, and where in that scan's plane. */
  function TileAt(y: nat, x: nat): (ti: nat)
    ensures y < 2 * TILE_H && x < FRAME_W ==> ti < 4
  {
    y / TILE_H * 2 + x / TILE_W
  }

  function ScanAt(y: nat): (scan: nat)
    ensures scan < 2
  {
    y % TILE_H % 2
  }

  function RowAt(y: nat): (row: nat)
    ensures row < PLANE_H
  {
    y % TILE_H / 2
  }

  function ColumnAt(x: nat): (col: nat)
    ensures col < PLANE_W
  {
    x % TILE_W
  }

  /** A pixel of a plane: its block, dequantised, transformed, mapped through the curve. */
  function CodedPixel(t: CodedTile, k: nat, row: nat, x: nat, idct: Idct, curve: seq<nat>): nat
    requires IsCurve(curve) && CodedBlock(t, k, BlockAt(row, x))
  {
    var block := t.Scan(k).Coefficients(t.quant, BlockAt(row, x));
    curve[idct(block)[InBlock(row, x)]]
  }

  lemma RenderedAt(coeffs: seq<seq<int>>, idct: Idct, curve: seq<nat>, row: nat, x: nat)
    requires row < PLANE_H && x < PLANE_W && IsCurve(curve) && |coeffs| == NB
    ensures PlaceAt(row, x) < PLANE_H * PLANE_W
    ensures RenderedPlane(coeffs, idct, curve)[PlaceAt(row, x)] == curve[idct(coeffs[BlockAt(row, x)])[InBlock(row, x)]]
  {
    hide BlockOrder;
    BlockOfPixel(row, x);
    DivUnique(BlockOrder(row * 1928 + x), 64, BlockAt(row, x), InBlock(row, x));
  }

  function PlaceAt(row: nat, x: nat): (n: nat)
    ensures row < PLANE_H && x < PLANE_W ==> n < PLANE_H * PLANE_W
  {
    row * PLANE_W + x
  }

  lemma CodedPlane(t: CodedTile, k: nat, row: nat, x: nat, idct: Idct, curve: seq<nat>)
    requires t.Valid() && k < 2 && row < PLANE_H && x < PLANE_W && IsCurve(curve)
    ensures CodedBlock(t, k, BlockAt(row, x))
    ensures t.Scan(k).Valid()
    ensures var r := PlaneOf(t.Bytes(), k, idct, curve);
            r.Ok? && (t.Scan(k).FilledThrough(BlockAt(row, x)) ==> r.value[PlaceAt(row, x)] == CodedPixel(t, k, row, x, idct, curve))
  {
    hide CodedTile.Valid, CodedTile.Bytes, CodedScan.Valid, CodedScan.FilledThrough, Parsed, ScanCoefficients, CodedScan.Coefficients, CodedBlock, RenderedPlane, IsCurve, BlockAt, InBlock, PlaceAt;
    CodedScanFound(t, k);
    RenderedAt(ScanCoefficients(t.Bytes(), Parsed(t.Bytes()).value, k).value.1, idct, curve, row, x);
  }

  /** The bytes of four coded tiles. */
  ghost predicate AreCoded(bytes: seq<seq<byte>>, tiles: seq<CodedTile>) {
    |bytes| == |tiles| == 4 && forall k :: 0 <= k < 4 ==> IsCoded(bytes[k], tiles[k])
  }

  ghost predicate IsCoded(bytes: seq<byte>, t: CodedTile) {
    t.Valid() && bytes == t.Bytes()
  }

  lemma {:induction false} CodedPlanes(bytes: seq<seq<byte>>, tiles: seq<CodedTile>, k: nat, idct: Idct, curve: seq<nat>)
    requires AreCoded(bytes, tiles) && IsCurve(curve) && k <= 8
    ensures var r := Planes(bytes, k, idct, curve);
            r.Ok? && forall j :: 0 <= j < k ==> PlaneOf(bytes[j / 2], j % 2, idct, curve) == Ok(r.value[j])
  {
    hide PlaneOf, CodedTile.Valid, CodedTile.Bytes, CodedPixel, CodedBlock, CodedScan.Valid, CodedScan.FilledThrough, CodedTile.Scan, IsCurve;
    if k > 0 {
      CodedPlanes(bytes, tiles, k - 1, idct, curve);
      assert IsCoded(bytes[(k - 1) / 2], tiles[(k - 1) / 2]);
      CodedPlane(tiles[(k - 1) / 2], (k - 1) % 2, 0, 0, idct, curve);
    }
  }

  lemma FramePixelIs(frame: seq<nat>, planes: seq<seq<nat>>, height: nat, y: nat, x: nat)
    requires AllPlanes(planes) && |planes| == 8 && height <= 2176 && y < height && x < FRAME_W
    requires IsFrame(frame, planes, height)
    ensures y * FRAME_W + x < |frame|
    ensures frame[y * FRAME_W + x] == planes[TileAt(y, x) * 2 + ScanAt(y)][PlaceAt(RowAt(y), ColumnAt(x))]
  {
    PixelInside(y, x);
    assert FrameAt(frame, y, x) == PlanePixel(planes, y, x);
  }

  lemma PlanePixelDecodes(bytes: seq<seq<byte>>, tiles: seq<CodedTile>, planes: seq<seq<nat>>, ti: nat, scan: nat, row: nat, col: nat, idct: Idct, curve: seq<nat>)
    requires AreCoded(bytes, tiles) && IsCurve(curve)
    requires ti < 4 && scan < 2 && row < PLANE_H && col < PLANE_W
    requires AllPlanes(planes) && |planes| == 8
    requires forall j :: 0 <= j < 8 ==> PlaneOf(bytes[j / 2], j % 2, idct, curve) == Ok(planes[j])
    ensures CodedBlock(tiles[ti], scan, BlockAt(row, col))
    ensures tiles[ti].Scan(scan).Valid()
    ensures tiles[ti].Scan(scan).FilledThrough(BlockAt(row, col))
            ==> planes[ti * 2 + scan][PlaceAt(row, col)] == CodedPixel(tiles[ti], scan, row, col, idct, curve)
  {
    hide PlaneOf, CodedTile.Valid, CodedScan.Valid, CodedScan.FilledThrough, CodedTile.Bytes, CodedPixel, CodedBlock, IsCurve, BlockAt, PlaceAt;
    assert IsCoded(bytes[ti], tiles[ti]);
    CodedPlane(tiles[ti], scan, row, col, idct, curve);
    var j := ti * 2 + scan;
    assert j / 2 == ti && j % 2 == scan;
    assert PlaneOf(bytes[j / 2], j % 2, idct, curve) == Ok(planes[j]);
  }

  /** What the assembled frame shows at `(y, x)`: the pixel of the coded block of the tile and
      scan that cover it, if that scan's reads are filled up to that block. */
  lemma FrameDecodesCoding(bytes: seq<seq<byte>>, tiles: seq<CodedTile>, height: nat, y: nat, x: nat, frame: seq<nat>, idct: Idct, curve: seq<nat>)
    requires AreCoded(bytes, tiles) && IsCurve(curve)
    requires height <= 2 * TILE_H && y < height && x < FRAME_W
    ensures Planes(bytes, 8, idct, curve).Ok?
    ensures CodedBlock(tiles[TileAt(y, x)], ScanAt(y), BlockAt(RowAt(y), ColumnAt(x)))
    ensures tiles[TileAt(y, x)].Scan(ScanAt(y)).Valid()
    ensures IsFrame(frame, Planes(bytes, 8, idct, curve).value, height)
            ==> && y * FRAME_W + x < |frame|
                && (tiles[TileAt(y, x)].Scan(ScanAt(y)).FilledThrough(BlockAt(RowAt(y), ColumnAt(x)))
                    ==> frame[y * FRAME_W + x] == CodedPixel(tiles[TileAt(y, x)], ScanAt(y), RowAt(y), ColumnAt(x), idct, curve))
  {
    hide PlaneOf, IsCoded, Planes, CodedPixel, CodedBlock, IsFrame, IsCurve, TileAt, ScanAt, RowAt, ColumnAt, BlockAt,
      PlaceAt, CodedScan.Valid, CodedScan.FilledThrough;
    CodedPlanes(bytes, tiles, 8, idct, curve);
    var planes := Planes(bytes, 8, idct, curve).value;
    PlanePixelDecodes(bytes, tiles, planes, TileAt(y, x), ScanAt(y), RowAt(y), ColumnAt(x), idct, curve);
    if IsFrame(frame, planes, height) {
      FramePixelIs(frame, planes, height, y, x);
    }
  }
}
