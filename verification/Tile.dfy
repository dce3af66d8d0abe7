/** The JPEG marker walk over one tile (tool/src/dct2s.rs), and what an accepted tile
    guarantees about the scans and tables it hands on. */
module Tile {
  import opened Prelude
  import opened Huffman
  import opened BitReader
  import opened ScanInverse

  /** The last is an index outside the tile, which stops the program. */
  datatype TileError = NoEoi | OutOfBounds

  /** Tables by class and id, quantisers by id, and for every scan where its marker, its
      entropy-coded data and the next marker begin. */
  datatype TileInfo = TileInfo(dht: map<nat, HuffTable>, dqt: map<nat, seq<nat>>, sos: seq<(nat, nat, nat)>)

  function U16(tile: seq<byte>, i: nat): nat
    requires i + 1 < |tile|
  {
    tile[i] as int * 256 + tile[i + 1]
  }

  predicate Standalone(m: byte) {
    m == 0xD8 || 0xD0 <= m <= 0xD7 || m == 0x01
  }

  /** The tables of one segment that ends at `end`. */
  function ReadTables(tile: seq<byte>, j: nat, end: nat, dht: map<nat, HuffTable>): Result<map<nat, HuffTable>, TileError>
    decreases end - j
  {
    if j + 17 > end then Ok(dht)
    else if j + 17 > |tile| then Err(OutOfBounds)
    else
      var counts := tile[j + 1..j + 17];
      var next := j + 17 + SumCounts(counts, MAX_LENGTH);
      if next > end then Ok(dht)
      else if next > |tile| then Err(OutOfBounds)
      else ReadTables(tile, next, end, dht[tile[j] := HuffTable(counts, tile[j + 17..next])])
  }

  function Quantiser(tile: seq<byte>, j: nat): (q: seq<nat>)
    requires j + 129 <= |tile|
    ensures |q| == 64 && forall t :: 0 <= t < 64 ==> q[t] == U16(tile, j + 1 + 2 * t) < 0x1_0000
  {
    seq(64, t requires 0 <= t < 64 => U16(tile, j + 1 + 2 * t))
  }

  function ReadQuantisers(tile: seq<byte>, j: nat, end: nat, dqt: map<nat, seq<nat>>): map<nat, seq<nat>>
    decreases end - j
  {
    if j < end && j + 129 <= |tile| then ReadQuantisers(tile, j + 129, end, dqt[tile[j] % 16 := Quantiser(tile, j)]) else dqt
  }

  /** Where the next marker begins: an FF that is not followed by 00. */
  function ScanEnd(tile: seq<byte>, j: nat): (e: nat)
    ensures j <= e && (e > j ==> e < |tile|)
    ensures forall k :: j <= k < e && tile[k] == 0xFF ==> tile[k + 1] == 0
    ensures e + 1 < |tile| ==> tile[e] == 0xFF && tile[e + 1] != 0
    decreases |tile| - j
  {
    if j + 1 < |tile| && !(tile[j] == 0xFF && tile[j + 1] != 0) then ScanEnd(tile, j + 1) else j
  }

  /** The walk from a marker on. */
  function Walk(tile: seq<byte>, i: nat, info: TileInfo): Result<TileInfo, TileError>
    decreases |tile| - i
  {
    if !(i + 1 < |tile| && tile[i] == 0xFF) then Err(NoEoi)
    else
      var m := tile[i + 1];
      if m == 0xD9 then Ok(info)
      else if Standalone(m) then Walk(tile, i + 2, info)
      else if i + 4 > |tile| then Err(NoEoi)
      else
        var next := i + 2 + U16(tile, i + 2);
        if m == 0xC4 then
          var dht :- ReadTables(tile, i + 4, next, info.dht);
          Walk(tile, next, info.(dht := dht))
        else if m == 0xDB then Walk(tile, next, info.(dqt := ReadQuantisers(tile, i + 4, next, info.dqt)))
        else if m == 0xDA then
          var e := ScanEnd(tile, next);
          Walk(tile, e, info.(sos := info.sos + [(i, next, e)]))
        else Walk(tile, next, info)
  }

  const NOTHING := TileInfo(map[], map[], [])

  function Parsed(tile: seq<byte>): Result<TileInfo, TileError> {
    Walk(tile, 2, NOTHING)
  }

  // ---------------------------------------------------------------------------------------
  // The walk as it runs
  // ---------------------------------------------------------------------------------------

  method TablesLoop(tile: seq<byte>, base: nat, end: nat, dht0: map<nat, HuffTable>) returns (r: Result<map<nat, HuffTable>, TileError>)
    ensures r == ReadTables(tile, base, end, dht0)
  {
    hide SumCounts;
    var j: nat, dht: map<nat, HuffTable> := base, dht0;
    while j + 17 <= end
      invariant ReadTables(tile, j, end, dht) == ReadTables(tile, base, end, dht0)
      decreases end - j
    {
      if j + 17 > |tile| {
        return Err(OutOfBounds);
      }
      var tcTq := tile[j];
      var counts := tile[j + 1..j + 17];
      var nsym := SumCounts(counts, 16);
      if j + 17 + nsym > end {
        break;
      }
      if j + 17 + nsym > |tile| {
        return Err(OutOfBounds);
      }
      dht := dht[tcTq := HuffTable(counts, tile[j + 17..j + 17 + nsym])];
      j := j + 17 + nsym;
    }
    return Ok(dht);
  }

  method QuantisersLoop(tile: seq<byte>, base: nat, end: nat, dqt0: map<nat, seq<nat>>) returns (dqt: map<nat, seq<nat>>)
    ensures dqt == ReadQuantisers(tile, base, end, dqt0)
  {
    dqt := dqt0;
    var j := base;
    while j < end && j + 129 <= |tile|
      invariant ReadQuantisers(tile, j, end, dqt) == ReadQuantisers(tile, base, end, dqt0)
      decreases end - j
    {
      var tq := tile[j] % 16;
      var q := new nat[64](_ => 0);
      for t := 0 to 64
        invariant forall k :: 0 <= k < t ==> q[k] == U16(tile, j + 1 + 2 * k)
      {
        q[t] := U16(tile, j + 1 + 2 * t);
      }
      assert q[..] == Quantiser(tile, j);
      dqt := dqt[tq := q[..]];
      j := j + 129;
    }
  }

  method ParseTile(tile: seq<byte>) returns (r: Result<TileInfo, TileError>)
    ensures r == Parsed(tile)
  {
    hide ReadTables, ReadQuantisers, ScanEnd;
    var info, i, eoi := NOTHING, 2, false;
    while i + 1 < |tile| && tile[i] == 0xFF
      invariant !eoi && Walk(tile, i, info) == Parsed(tile)
      invariant !eoi
      decreases |tile| - i
    {
      var m := tile[i + 1];
      if m == 0xD9 {
        eoi := true;
        break;
      }
      if m == 0xD8 || 0xD0 <= m <= 0xD7 || m == 0x01 {
        i := i + 2;
        continue;
      }
      if i + 4 > |tile| {
        break;
      }
      var ln := tile[i + 2] as int * 256 + tile[i + 3];
      if m == 0xC4 {
        var dht := TablesLoop(tile, i + 4, i + 2 + ln, info.dht);
        if dht.Err? {
          return Err(dht.error);
        }
        info := info.(dht := dht.value);
      } else if m == 0xDB {
        var dqt := QuantisersLoop(tile, i + 4, i + 2 + ln, info.dqt);
        info := info.(dqt := dqt);
      } else if m == 0xDA {
        var start := i + 2 + ln;
        var j := start;
        while j + 1 < |tile|
          invariant ScanEnd(tile, j) == ScanEnd(tile, start) && start <= j
        {
          ScanEndStep(tile, j);
          if tile[j] == 0xFF && tile[j + 1] != 0 {
            break;
          }
          j := j + 1;
        }
        ScanEndStep(tile, j);
        info := info.(sos := info.sos + [(i, start, j)]);
        i := j;
        continue;
      }
      i := i + 2 + ln;
    }
    if !eoi {
      return Err(NoEoi);
    }
    return Ok(info);
  }

  lemma ScanEndStep(tile: seq<byte>, j: nat)
    ensures ScanEnd(tile, j) == if j + 1 < |tile| && !(tile[j] == 0xFF && tile[j + 1] != 0) then ScanEnd(tile, j + 1) else j
  {
  }

  // ---------------------------------------------------------------------------------------
  // What an accepted tile guarantees
  // ---------------------------------------------------------------------------------------

  /** A scan inside the tile whose data ends before a marker and in which FF is always
      followed by 00. */
  ghost predicate CleanScan(tile: seq<byte>, s: (nat, nat, nat)) {
    && s.0 + 2 <= s.1 <= s.2 && s.2 + 1 < |tile| && tile[s.0] == 0xFF && tile[s.0 + 1] == 0xDA
    && tile[s.2] == 0xFF && tile[s.2 + 1] != 0 && EndingOf(tile[s.1..s.2]) == AtEnd
  }

  /** Clean scans one after the other, all before `i`. */
  ghost predicate CleanScans(tile: seq<byte>, i: nat, sos: seq<(nat, nat, nat)>) {
    && (forall k :: 0 <= k < |sos| ==> CleanScan(tile, sos[k]) && sos[k].2 <= i)
    && forall k, l :: 0 <= k < l < |sos| ==> sos[k].2 <= sos[l].0
  }

  lemma {:induction false} StuffedIsClean(data: seq<byte>)
    requires forall k :: 0 <= k < |data| && data[k] == 0xFF ==> k + 1 < |data| && data[k + 1] == 0
    ensures EndingOf(data) == AtEnd
    decreases |data|
  {
    if data != [] {
      var n := if data[0] == 0xFF then 2 else 1;
      var rest := data[n..];
      assert forall k :: 0 <= k < |rest| ==> rest[k] == data[n + k];
      forall k | 0 <= k < |rest| && rest[k] == 0xFF
        ensures k + 1 < |rest| && rest[k + 1] == 0
      {
        assert data[n + k] == 0xFF;
      }
      StuffedIsClean(rest);
    }
  }

  lemma ScanIsClean(tile: seq<byte>, i: nat)
    requires i + 4 <= |tile| && tile[i] == 0xFF && tile[i + 1] == 0xDA
    requires var e := ScanEnd(tile, i + 2 + U16(tile, i + 2)); e + 1 < |tile|
    ensures var next := i + 2 + U16(tile, i + 2); CleanScan(tile, (i, next, ScanEnd(tile, next)))
  {
    hide ScanEnd, EndingOf, U16;
    var next := i + 2 + U16(tile, i + 2);
    var e := ScanEnd(tile, next);
    var data := tile[next..e];
    forall k | 0 <= k < |data| && data[k] == 0xFF
      ensures k + 1 < |data| && data[k + 1] == 0
    {
      assert tile[next + k] == 0xFF && tile[next + k + 1] == 0;
      if k + 1 < |data| {
        assert data[k + 1] == tile[next + k + 1];
      }
    }
    StuffedIsClean(data);
  }

  lemma {:induction false} WalkScansClean(tile: seq<byte>, i: nat, info: TileInfo)
    requires CleanScans(tile, i, info.sos) && Walk(tile, i, info).Ok?
    ensures CleanScans(tile, |tile|, Walk(tile, i, info).value.sos)
    ensures i + 1 < |tile| && tile[i] == 0xFF
    decreases |tile| - i
  {
    hide CleanScan, ReadTables, ReadQuantisers, ScanEnd, U16;
    var m := tile[i + 1];
    if m != 0xD9 {
      if Standalone(m) {
        WalkScansClean(tile, i + 2, info);
      } else {
        var next := i + 2 + U16(tile, i + 2);
        if m == 0xC4 {
          WalkScansClean(tile, next, info.(dht := ReadTables(tile, i + 4, next, info.dht).value));
        } else if m == 0xDB {
          WalkScansClean(tile, next, info.(dqt := ReadQuantisers(tile, i + 4, next, info.dqt)));
        } else if m == 0xDA {
          var e := ScanEnd(tile, next);
          var info' := info.(sos := info.sos + [(i, next, e)]);
          WalkEnters(tile, e, info');
          ScanIsClean(tile, i);
          WalkScansClean(tile, e, info');
        } else {
          WalkScansClean(tile, next, info);
        }
      }
    }
  }

  lemma WalkEnters(tile: seq<byte>, i: nat, info: TileInfo)
    requires Walk(tile, i, info).Ok?
    ensures i + 1 < |tile| && tile[i] == 0xFF
  {
    hide ReadTables, ReadQuantisers, ScanEnd, U16;
  }

  /** On every scan of an accepted tile the bit reader sees a plain end, never a marker. */
  lemma AcceptedScansClean(tile: seq<byte>)
    requires Parsed(tile).Ok?
    ensures CleanScans(tile, |tile|, Parsed(tile).value.sos)
  {
    WalkScansClean(tile, 2, NOTHING);
  }

  /** Every table has as many symbols as its counts announce, every quantiser 64 16-bit values. */
  ghost predicate WellFormedTables(info: TileInfo) {
    && (forall k :: k in info.dht ==> |info.dht[k].counts| == MAX_LENGTH && |info.dht[k].syms| == SumCounts(info.dht[k].counts, MAX_LENGTH))
    && forall k :: k in info.dqt ==> |info.dqt[k]| == 64 && forall t :: 0 <= t < 64 ==> info.dqt[k][t] < 0x1_0000
  }

  lemma {:induction false} ReadTablesWellFormed(tile: seq<byte>, j: nat, end: nat, info: TileInfo)
    requires WellFormedTables(info) && ReadTables(tile, j, end, info.dht).Ok?
    ensures WellFormedTables(info.(dht := ReadTables(tile, j, end, info.dht).value))
    decreases end - j
  {
    hide SumCounts;
    if j + 17 <= end {
      var counts := tile[j + 1..j + 17];
      var next := j + 17 + SumCounts(counts, MAX_LENGTH);
      if next <= end {
        ReadTablesWellFormed(tile, next, end, info.(dht := info.dht[tile[j] := HuffTable(counts, tile[j + 17..next])]));
      }
    }
  }

  lemma {:induction false} ReadQuantisersWellFormed(tile: seq<byte>, j: nat, end: nat, info: TileInfo)
    requires WellFormedTables(info)
    ensures WellFormedTables(info.(dqt := ReadQuantisers(tile, j, end, info.dqt)))
    decreases end - j
  {
    hide SumCounts, U16;
    if j < end && j + 129 <= |tile| {
      ReadQuantisersWellFormed(tile, j + 129, end, info.(dqt := info.dqt[tile[j] % 16 := Quantiser(tile, j)]));
    }
  }

  lemma {:induction false} WalkWellFormed(tile: seq<byte>, i: nat, info: TileInfo)
    requires WellFormedTables(info) && Walk(tile, i, info).Ok?
    ensures WellFormedTables(Walk(tile, i, info).value)
    decreases |tile| - i
  {
    hide ReadTables, ReadQuantisers, ScanEnd, U16, WellFormedTables;
    WalkEnters(tile, i, info);
    var m := tile[i + 1];
    if m != 0xD9 {
      if Standalone(m) {
        WalkWellFormed(tile, i + 2, info);
      } else {
        var next := i + 2 + U16(tile, i + 2);
        if m == 0xC4 {
          ReadTablesWellFormed(tile, i + 4, next, info);
          WalkWellFormed(tile, next, info.(dht := ReadTables(tile, i + 4, next, info.dht).value));
        } else if m == 0xDB {
          ReadQuantisersWellFormed(tile, i + 4, next, info);
          WalkWellFormed(tile, next, info.(dqt := ReadQuantisers(tile, i + 4, next, info.dqt)));
        } else if m == 0xDA {
          ScansDoNotMatter(info, info.sos + [(i, next, ScanEnd(tile, next))]);
          WalkWellFormed(tile, ScanEnd(tile, next), info.(sos := info.sos + [(i, next, ScanEnd(tile, next))]));
        } else {
          WalkWellFormed(tile, next, info);
        }
      }
    }
  }

  lemma ScansDoNotMatter(info: TileInfo, sos: seq<(nat, nat, nat)>)
    requires WellFormedTables(info)
    ensures WellFormedTables(info.(sos := sos))
  {
  }

  /** Building the table of an accepted tile can only fail on an empty one. */
  lemma AcceptedTablesBuild(tile: seq<byte>, k: nat)
    requires Parsed(tile).Ok? && k in Parsed(tile).value.dht
    ensures var t := Parsed(tile).value.dht[k]; Table(t.counts, t.syms) != Err(MoreCountsThanSymbols)
  {
    hide Walk, SumCounts;
    WalkWellFormed(tile, 2, NOTHING);
  }
}
