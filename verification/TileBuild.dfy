/** Tiles put together from segments are read back as those segments (tool/src/dct2s.rs). */
module TileBuild {
  import opened Prelude
  import opened Huffman
  import opened BitReader
  import opened ScanInverse
  import opened Tile

  datatype Segment =
    | Alone(m: byte)
    | Tables(tables: seq<(byte, HuffTable)>)
    | Quantisers(quants: seq<(byte, seq<nat>)>)
    | ScanOf(header: seq<byte>, data: seq<byte>)
    | Skipped(m: byte, payload: seq<byte>)

  function TableBytes(tables: seq<(byte, HuffTable)>): seq<byte> {
    if tables == [] then [] else [tables[0].0] + tables[0].1.counts + tables[0].1.syms + TableBytes(tables[1..])
  }

  function Words(q: seq<nat>): seq<byte>
    requires forall t :: 0 <= t < |q| ==> q[t] < 0x1_0000
  {
    if q == [] then [] else [q[0] / 256, q[0] % 256] + Words(q[1..])
  }

  ghost predicate QuantsFit(quants: seq<(byte, seq<nat>)>) {
    forall k :: 0 <= k < |quants| ==> |quants[k].1| == 64 && forall t :: 0 <= t < 64 ==> quants[k].1[t] < 0x1_0000
  }

  ghost function QuantBytes(quants: seq<(byte, seq<nat>)>): seq<byte>
    requires QuantsFit(quants)
  {
    if quants == [] then [] else [quants[0].0] + Words(quants[0].1) + QuantBytes(quants[1..])
  }

  ghost predicate TablesFit(tables: seq<(byte, HuffTable)>) {
    forall k :: 0 <= k < |tables| ==>
      |tables[k].1.counts| == MAX_LENGTH && |tables[k].1.syms| == SumCounts(tables[k].1.counts, MAX_LENGTH)
  }

  const LONGEST: nat := 0xFFFF - 2

  /** A segment that can be written. */
  ghost predicate Writable(s: Segment) {
    match s
    case Alone(m) => Standalone(m)
    case Tables(tables) => TablesFit(tables) && |TableBytes(tables)| <= LONGEST
    case Quantisers(quants) => QuantsFit(quants) && |QuantBytes(quants)| <= LONGEST
    case ScanOf(header, data) => |header| <= LONGEST && EndingOf(data) == AtEnd
    case Skipped(m, payload) =>
      !Standalone(m) && m != 0 && m != 0xD9 && m != 0xC4 && m != 0xDB && m != 0xDA && |payload| <= LONGEST
  }

  /** Marker, length, payload. */
  function Framed(m: byte, payload: seq<byte>): seq<byte>
    requires |payload| <= LONGEST
  {
    [0xFF, m, (|payload| + 2) / 256, (|payload| + 2) % 256] + payload
  }

  ghost function Bytes(s: Segment): (b: seq<byte>)
    requires Writable(s)
    ensures |b| >= 2 && b[0] == 0xFF && b[1] != 0
  {
    match s
    case Alone(m) => [0xFF, m]
    case Tables(tables) => Framed(0xC4, TableBytes(tables))
    case Quantisers(quants) => Framed(0xDB, QuantBytes(quants))
    case ScanOf(header, data) => Framed(0xDA, header) + data
    case Skipped(m, payload) => Framed(m, payload)
  }

  function AddTables(dht: map<nat, HuffTable>, tables: seq<(byte, HuffTable)>): map<nat, HuffTable>
    decreases |tables|
  {
    if tables == [] then dht else AddTables(dht[tables[0].0 := tables[0].1], tables[1..])
  }

  function AddQuants(dqt: map<nat, seq<nat>>, quants: seq<(byte, seq<nat>)>): map<nat, seq<nat>>
    decreases |quants|
  {
    if quants == [] then dqt else AddQuants(dqt[quants[0].0 % 16 := quants[0].1], quants[1..])
  }

  /** What a segment at offset `i` adds to what is known of the tile. */
  function Add(info: TileInfo, s: Segment, i: nat): TileInfo {
    match s
    case Alone(_) => info
    case Tables(tables) => info.(dht := AddTables(info.dht, tables))
    case Quantisers(quants) => info.(dqt := AddQuants(info.dqt, quants))
    case ScanOf(header, data) => info.(sos := info.sos + [(i, i + 4 + |header|, i + 4 + |header| + |data|)])
    case Skipped(_, _) => info
  }

  ghost predicate AllWritable(segments: seq<Segment>) {
    forall k :: 0 <= k < |segments| ==> Writable(segments[k])
  }

  ghost function AllBytes(segments: seq<Segment>): seq<byte>
    requires AllWritable(segments)
  {
    if segments == [] then [] else Bytes(segments[0]) + AllBytes(segments[1..])
  }

  ghost function AddAll(info: TileInfo, segments: seq<Segment>, i: nat): TileInfo
    requires AllWritable(segments)
    decreases |segments|
  {
    if segments == [] then info else AddAll(Add(info, segments[0], i), segments[1..], i + |Bytes(segments[0])|)
  }

  // ---------------------------------------------------------------------------------------
  // Reading each part back
  // ---------------------------------------------------------------------------------------

  /** `part` stands at offset `i`. */
  ghost predicate At(tile: seq<byte>, i: nat, part: seq<byte>) {
    i + |part| <= |tile| && tile[i..i + |part|] == part
  }

  lemma AtSplit(tile: seq<byte>, i: nat, a: seq<byte>, b: seq<byte>)
    requires At(tile, i, a + b)
    ensures At(tile, i, a) && At(tile, i + |a|, b)
  {
    assert tile[i..i + |a + b|][..|a|] == tile[i..i + |a|];
    assert tile[i..i + |a + b|][|a|..] == tile[i + |a|..i + |a| + |b|];
  }

  lemma AtByte(tile: seq<byte>, i: nat, part: seq<byte>, k: nat)
    requires At(tile, i, part) && k < |part|
    ensures tile[i + k] == part[k]
  {
    assert tile[i..i + |part|][k] == tile[i + k];
  }

  /** One table of a segment. */
  lemma TableBack(tile: seq<byte>, j: nat, end: nat, id: byte, t: HuffTable, dht: map<nat, HuffTable>)
    requires |t.counts| == MAX_LENGTH && |t.syms| == SumCounts(t.counts, MAX_LENGTH)
    requires j + 17 + |t.syms| <= end && j + 17 + |t.syms| <= |tile|
    requires tile[j] == id && tile[j + 1..j + 17] == t.counts && tile[j + 17..j + 17 + |t.syms|] == t.syms
    ensures ReadTables(tile, j, end, dht) == ReadTables(tile, j + 17 + |t.syms|, end, dht[id := t])
  {
    hide SumCounts;
  }

  lemma NoTables(tile: seq<byte>, j: nat, dht: map<nat, HuffTable>)
    ensures ReadTables(tile, j, j + |TableBytes([])|, dht) == Ok(dht) == Ok(AddTables(dht, []))
  {
  }

  lemma TablesCons(tables: seq<(byte, HuffTable)>, dht: map<nat, HuffTable>)
    requires tables != [] && TablesFit(tables)
    ensures var (id, t) := tables[0];
            && TableBytes(tables) == [id] + (t.counts + (t.syms + TableBytes(tables[1..])))
            && AddTables(dht, tables) == AddTables(dht[id := t], tables[1..])
            && |t.counts| == MAX_LENGTH && |t.syms| == SumCounts(t.counts, MAX_LENGTH) && TablesFit(tables[1..])
  {
    hide SumCounts;
    var (id, t) := tables[0];
    var more := TableBytes(tables[1..]);
    assert [id] + t.counts + t.syms + more == [id] + (t.counts + (t.syms + more));
  }

  lemma {:induction false} TablesBack(tile: seq<byte>, j: nat, tables: seq<(byte, HuffTable)>, dht: map<nat, HuffTable>)
    requires TablesFit(tables) && At(tile, j, TableBytes(tables))
    ensures ReadTables(tile, j, j + |TableBytes(tables)|, dht) == Ok(AddTables(dht, tables))
    decreases |tables|
  {
    hide SumCounts, At, ReadTables, TableBytes, AddTables, TablesFit;
    if tables == [] {
      NoTables(tile, j, dht);
    } else {
      TablesCons(tables, dht);
      var (id, t) := tables[0];
      var more := TableBytes(tables[1..]);
      AtSplit(tile, j, [id], t.counts + (t.syms + more));
      AtSplit(tile, j + 1, t.counts, t.syms + more);
      AtSplit(tile, j + 17, t.syms, more);
      AtWhole(tile, j, [id]);
      AtWhole(tile, j + 1, t.counts);
      AtWhole(tile, j + 17, t.syms);
      AtByte(tile, j, [id], 0);
      TableBack(tile, j, j + |TableBytes(tables)|, id, t, dht);
      TablesBack(tile, j + 17 + |t.syms|, tables[1..], dht[id := t]);
    }
  }

  lemma AtWhole(tile: seq<byte>, i: nat, part: seq<byte>)
    requires At(tile, i, part)
    ensures i + |part| <= |tile| && tile[i..i + |part|] == part
  {
  }

  lemma {:induction false} WordsAt(q: seq<nat>, t: nat)
    requires forall k :: 0 <= k < |q| ==> q[k] < 0x1_0000
    requires t < |q|
    ensures |Words(q)| == 2 * |q| && Words(q)[2 * t] == q[t] / 256 && Words(q)[2 * t + 1] == q[t] % 256
  {
    WordsSize(q);
    if t > 0 {
      WordsAt(q[1..], t - 1);
    }
  }

  lemma {:induction false} WordsSize(q: seq<nat>)
    requires forall k :: 0 <= k < |q| ==> q[k] < 0x1_0000
    ensures |Words(q)| == 2 * |q|
  {
    if q != [] {
      WordsSize(q[1..]);
    }
  }

  lemma QuantiserBack(tile: seq<byte>, j: nat, q: seq<nat>)
    requires |q| == 64 && forall t :: 0 <= t < 64 ==> q[t] < 0x1_0000
    requires j + 129 <= |tile| && At(tile, j + 1, Words(q))
    ensures Quantiser(tile, j) == q
  {
    hide Words, At;
    WordsSize(q);
    forall t | 0 <= t < 64
      ensures Quantiser(tile, j)[t] == q[t]
    {
      WordsAt(q, t);
      AtByte(tile, j + 1, Words(q), 2 * t);
      AtByte(tile, j + 1, Words(q), 2 * t + 1);
    }
  }

  lemma {:induction false} QuantisersBack(tile: seq<byte>, j: nat, quants: seq<(byte, seq<nat>)>, dqt: map<nat, seq<nat>>)
    requires QuantsFit(quants) && At(tile, j, QuantBytes(quants))
    ensures ReadQuantisers(tile, j, j + |QuantBytes(quants)|, dqt) == AddQuants(dqt, quants)
    decreases |quants|
  {
    hide Words, At, Quantiser;
    if quants != [] {
      var (id, q) := quants[0];
      var more := QuantBytes(quants[1..]);
      WordsSize(q);
      assert [id] + Words(q) + more == [id] + (Words(q) + more);
      AtSplit(tile, j, [id], Words(q) + more);
      AtSplit(tile, j + 1, Words(q), more);
      AtWhole(tile, j + 1, Words(q));
      AtByte(tile, j, [id], 0);
      QuantiserBack(tile, j, q);
      QuantisersBack(tile, j + 129, quants[1..], dqt[id % 16 := q]);
    }
  }

  /** How clean data goes on. */
  lemma CleanTail(data: seq<byte>)
    requires data != [] && EndingOf(data) == AtEnd
    ensures if data[0] == 0xFF then |data| > 1 && data[1] == 0 && EndingOf(data[2..]) == AtEnd else EndingOf(data[1..]) == AtEnd
  {
  }

  /** The data of a scan runs up to the marker that follows it. */
  lemma {:induction false} ScanBack(tile: seq<byte>, j: nat, data: seq<byte>)
    requires At(tile, j, data) && EndingOf(data) == AtEnd
    requires j + |data| + 1 < |tile| && tile[j + |data|] == 0xFF && tile[j + |data| + 1] != 0
    ensures ScanEnd(tile, j) == j + |data|
    decreases |data|
  {
    hide At, ScanEnd, EndingOf;
    ScanEndStep(tile, j);
    if data != [] {
      AtByte(tile, j, data, 0);
      CleanTail(data);
      var n := if data[0] == 0xFF then 2 else 1;
      assert data == data[..n] + data[n..];
      AtSplit(tile, j, data[..n], data[n..]);
      ScanBack(tile, j + n, data[n..]);
      if n == 2 {
        AtByte(tile, j, data, 1);
        ScanEndStep(tile, j + 1);
      }
    }
  }

  // ---------------------------------------------------------------------------------------
  // Walking segments
  // ---------------------------------------------------------------------------------------

  lemma FramedHead(tile: seq<byte>, i: nat, m: byte, payload: seq<byte>)
    requires |payload| <= LONGEST && At(tile, i, Framed(m, payload))
    ensures i + 4 + |payload| <= |tile| && tile[i] == 0xFF && tile[i + 1] == m
    ensures U16(tile, i + 2) == |payload| + 2 && At(tile, i + 4, payload)
  {
    hide At;
    var head: seq<byte> := [0xFF, m, (|payload| + 2) / 256, (|payload| + 2) % 256];
    AtSplit(tile, i, head, payload);
    AtByte(tile, i, head, 0);
    AtByte(tile, i, head, 1);
    AtByte(tile, i, head, 2);
    AtByte(tile, i, head, 3);
    AtWhole(tile, i + 4, payload);
  }

  lemma TablesSegment(tile: seq<byte>, i: nat, tables: seq<(byte, HuffTable)>, info: TileInfo)
    requires TablesFit(tables) && |TableBytes(tables)| <= LONGEST && At(tile, i, Framed(0xC4, TableBytes(tables)))
    ensures Walk(tile, i, info) == Walk(tile, i + 4 + |TableBytes(tables)|, info.(dht := AddTables(info.dht, tables)))
  {
    hide At, ReadTables, ReadQuantisers, ScanEnd, U16, Framed, TableBytes, TablesFit, AddTables;
    FramedHead(tile, i, 0xC4, TableBytes(tables));
    TablesBack(tile, i + 4, tables, info.dht);
  }

  lemma QuantisersSegment(tile: seq<byte>, i: nat, quants: seq<(byte, seq<nat>)>, info: TileInfo)
    requires QuantsFit(quants) && |QuantBytes(quants)| <= LONGEST && At(tile, i, Framed(0xDB, QuantBytes(quants)))
    ensures Walk(tile, i, info) == Walk(tile, i + 4 + |QuantBytes(quants)|, info.(dqt := AddQuants(info.dqt, quants)))
  {
    hide At, ReadTables, ReadQuantisers, ScanEnd, U16, Framed, QuantBytes, QuantsFit, AddQuants;
    FramedHead(tile, i, 0xDB, QuantBytes(quants));
    QuantisersBack(tile, i + 4, quants, info.dqt);
  }

  lemma ScanSegment(tile: seq<byte>, i: nat, header: seq<byte>, data: seq<byte>, info: TileInfo)
    requires |header| <= LONGEST && EndingOf(data) == AtEnd && At(tile, i, Framed(0xDA, header) + data)
    requires var e := i + 4 + |header| + |data|; e + 1 < |tile| && tile[e] == 0xFF && tile[e + 1] != 0
    ensures var e := i + 4 + |header| + |data|;
            Walk(tile, i, info) == Walk(tile, e, info.(sos := info.sos + [(i, i + 4 + |header|, e)]))
  {
    hide At, ReadTables, ReadQuantisers, ScanEnd, U16, Framed, EndingOf;
    FramedSize(0xDA, header);
    AtSplit(tile, i, Framed(0xDA, header), data);
    FramedHead(tile, i, 0xDA, header);
    ScanBack(tile, i + 4 + |header|, data);
  }

  lemma SkippedSegment(tile: seq<byte>, i: nat, m: byte, payload: seq<byte>, info: TileInfo)
    requires Writable(Skipped(m, payload)) && At(tile, i, Framed(m, payload))
    ensures Walk(tile, i, info) == Walk(tile, i + 4 + |payload|, info)
  {
    hide At, ReadTables, ReadQuantisers, ScanEnd, U16, Framed;
    FramedHead(tile, i, m, payload);
  }

  lemma AloneSegment(tile: seq<byte>, i: nat, m: byte, info: TileInfo)
    requires Standalone(m) && At(tile, i, [0xFF, m])
    ensures Walk(tile, i, info) == Walk(tile, i + 2, info)
  {
    hide At, ReadTables, ReadQuantisers, ScanEnd, U16;
    AtWhole(tile, i, [0xFF, m]);
    AtByte(tile, i, [0xFF, m], 0);
    AtByte(tile, i, [0xFF, m], 1);
  }

  lemma SegmentBack(tile: seq<byte>, i: nat, s: Segment, info: TileInfo)
    requires Writable(s) && At(tile, i, Bytes(s))
    requires var e := i + |Bytes(s)|; e + 1 < |tile| && tile[e] == 0xFF && tile[e + 1] != 0
    ensures Walk(tile, i, info) == Walk(tile, i + |Bytes(s)|, Add(info, s, i))
  {
    hide At, Walk, Framed, TableBytes, QuantBytes, TablesFit, QuantsFit, EndingOf, AddTables, AddQuants;
    match s {
      case Alone(m) =>
        AloneSegment(tile, i, m, info);
      case Tables(tables) =>
        FramedSize(0xC4, TableBytes(tables));
        TablesSegment(tile, i, tables, info);
      case Quantisers(quants) =>
        FramedSize(0xDB, QuantBytes(quants));
        QuantisersSegment(tile, i, quants, info);
      case ScanOf(header, data) =>
        FramedSize(0xDA, header);
        ScanSegment(tile, i, header, data, info);
      case Skipped(m, payload) =>
        FramedSize(m, payload);
        SkippedSegment(tile, i, m, payload, info);
    }
  }

  lemma FramedSize(m: byte, payload: seq<byte>)
    requires |payload| <= LONGEST
    ensures |Framed(m, payload)| == 4 + |payload|
  {
  }

  const EOI: seq<byte> := [0xFF, 0xD9]

  lemma {:induction false} SegmentsBack(tile: seq<byte>, i: nat, segments: seq<Segment>, info: TileInfo)
    requires AllWritable(segments) && At(tile, i, AllBytes(segments) + EOI)
    ensures Walk(tile, i, info) == Ok(AddAll(info, segments, i))
    decreases |segments|
  {
    hide At, Writable, Bytes, Walk, Add;
    if segments == [] {
      assert AllBytes(segments) + EOI == EOI;
      WalkEnds(tile, i, info);
    } else {
      var first, more := Bytes(segments[0]), AllBytes(segments[1..]) + EOI;
      assert AllBytes(segments) + EOI == first + more;
      AtSplit(tile, i, first, more);
      NextMarker(segments[1..]);
      AtWhole(tile, i + |first|, more);
      AtByte(tile, i + |first|, more, 0);
      AtByte(tile, i + |first|, more, 1);
      SegmentBack(tile, i, segments[0], info);
      SegmentsBack(tile, i + |first|, segments[1..], Add(info, segments[0], i));
    }
  }

  lemma NextMarker(segments: seq<Segment>)
    requires AllWritable(segments)
    ensures var b := AllBytes(segments) + EOI; |b| >= 2 && b[0] == 0xFF && b[1] != 0
  {
    hide Writable;
  }

  lemma WalkEnds(tile: seq<byte>, i: nat, info: TileInfo)
    requires At(tile, i, EOI)
    ensures Walk(tile, i, info) == Ok(info)
  {
    hide At;
    AtWhole(tile, i, EOI);
    AtByte(tile, i, EOI, 0);
    AtByte(tile, i, EOI, 1);
  }

  /** Two octets, segments, the end marker, and whatever follows it. */
  ghost function TileBytes(start: seq<byte>, segments: seq<Segment>, trailing: seq<byte>): seq<byte>
    requires AllWritable(segments) && |start| == 2
  {
    start + (AllBytes(segments) + EOI) + trailing
  }

  /** Every tile made of writable segments is accepted, with exactly their tables, quantisers
      and scans. */
  lemma TileReadsBack(start: seq<byte>, segments: seq<Segment>, trailing: seq<byte>)
    requires AllWritable(segments) && |start| == 2
    ensures Parsed(TileBytes(start, segments, trailing)) == Ok(AddAll(NOTHING, segments, 2))
  {
    hide AllBytes, Walk, AddAll;
    var body := AllBytes(segments) + EOI;
    var tile := start + body + trailing;
    assert tile[2..2 + |body|] == body;
    SegmentsBack(tile, 2, segments, NOTHING);
  }
}
