/** The scan decoder of tool/src/dct2s.rs over the bits that the reader delivers, and the block
    and coefficient loops that compute it. */
module Scan {
  import opened Prelude
  import opened Huffman
  import opened BitReader

  /** File position to natural index, padded as in the source. */
  function Zigzag(i: nat): (n: nat)
    ensures n < 64
  {
    match i
    case 0 => 0 case 1 => 1 case 2 => 8 case 3 => 16 case 4 => 9 case 5 => 2 case 6 => 3 case 7 => 10
    case 8 => 17 case 9 => 24 case 10 => 32 case 11 => 25 case 12 => 18 case 13 => 11 case 14 => 4 case 15 => 5
    case 16 => 12 case 17 => 19 case 18 => 26 case 19 => 33 case 20 => 40 case 21 => 48 case 22 => 41 case 23 => 34
    case 24 => 27 case 25 => 20 case 26 => 13 case 27 => 6 case 28 => 7 case 29 => 14 case 30 => 21 case 31 => 28
    case 32 => 35 case 33 => 42 case 34 => 49 case 35 => 56 case 36 => 57 case 37 => 50 case 38 => 43 case 39 => 36
    case 40 => 29 case 41 => 22 case 42 => 15 case 43 => 23 case 44 => 30 case 45 => 37 case 46 => 44 case 47 => 51
    case 48 => 58 case 49 => 59 case 50 => 52 case 51 => 45 case 52 => 38 case 53 => 31 case 54 => 39 case 55 => 46
    case 56 => 53 case 57 => 60 case 58 => 61 case 59 => 54 case 60 => 47 case 61 => 55 case 62 => 62 case 63 => 63
    case _ => 63
  }

  /** Natural index to file position. */
  function FileOrder(n: nat): (i: nat)
    ensures i < 64
  {
    match n
    case 0 => 0 case 1 => 1 case 2 => 5 case 3 => 6 case 4 => 14 case 5 => 15 case 6 => 27 case 7 => 28
    case 8 => 2 case 9 => 4 case 10 => 7 case 11 => 13 case 12 => 16 case 13 => 26 case 14 => 29 case 15 => 42
    case 16 => 3 case 17 => 8 case 18 => 12 case 19 => 17 case 20 => 25 case 21 => 30 case 22 => 41 case 23 => 43
    case 24 => 9 case 25 => 11 case 26 => 18 case 27 => 24 case 28 => 31 case 29 => 40 case 30 => 44 case 31 => 53
    case 32 => 10 case 33 => 19 case 34 => 23 case 35 => 32 case 36 => 39 case 37 => 45 case 38 => 52 case 39 => 54
    case 40 => 20 case 41 => 22 case 42 => 33 case 43 => 38 case 44 => 46 case 45 => 51 case 46 => 55 case 47 => 60
    case 48 => 21 case 49 => 34 case 50 => 37 case 51 => 47 case 52 => 50 case 53 => 56 case 54 => 59 case 55 => 61
    case 56 => 35 case 57 => 36 case 58 => 48 case 59 => 49 case 60 => 57 case 61 => 58 case 62 => 62 case 63 => 63
    case _ => 63
  }

  lemma ZigzagInverse(i: nat)
    requires i < 64
    ensures FileOrder(Zigzag(i)) == i
  {
  }

  lemma FileOrderInverse(n: nat)
    requires n < 64
    ensures Zigzag(FileOrder(n)) == n
  {
    if n < 16 {
    } else if n < 32 {
    } else if n < 48 {
    } else {
    }
  }

  /** The next place of the zigzag of Figure A.6 of ITU-T T.81: up and right on the even diagonals,
      down and left on the odd ones, turning at the edges. */
  function ZigzagNext(n: nat): nat {
    var row, col := n / 8, n % 8;
    if (row + col) % 2 == 0 then (if col == 7 then n + 8 else if row == 0 then n + 1 else n - 7)
    else (if row == 7 then n + 1 else if col == 0 then n + 8 else n + 7)
  }

  lemma ZigzagSteps(i: nat)
    requires i < 63
    ensures Zigzag(0) == 0 && Zigzag(i + 1) == ZigzagNext(Zigzag(i))
  {
    hide Zigzag, ZigzagNext;
    StepsFirst(0);
    if i < 16 {
      StepsFirst(i);
    } else if i < 32 {
      StepsSecond(i - 16);
    } else if i < 48 {
      StepsThird(i - 32);
    } else {
      StepsLast(i - 48);
    }
  }

  lemma StepsFirst(k: nat)
    requires k < 16
    ensures Zigzag(k + 1) == ZigzagNext(Zigzag(k)) && Zigzag(0) == 0
  {
    if k < 8 {
    } else {
    }
  }

  lemma StepsSecond(k: nat)
    requires k < 16
    ensures Zigzag(17 + k) == ZigzagNext(Zigzag(16 + k))
  {
    if k < 8 {
    } else {
    }
  }

  lemma StepsThird(k: nat)
    requires k < 16
    ensures Zigzag(33 + k) == ZigzagNext(Zigzag(32 + k))
  {
    if k < 8 {
    } else {
    }
  }

  lemma StepsLast(k: nat)
    requires k < 16
    ensures k < 15 ==> Zigzag(49 + k) == ZigzagNext(Zigzag(48 + k))
  {
    if k < 8 {
    } else {
    }
  }

  const VPRED0: int := 16384

  datatype ScanError = NoDqt | Underflow

  /** Wrap-around of a 32-bit signed sum. */
  function Wrap32(x: int): (w: int)
    ensures -0x8000_0000 <= w < 0x8000_0000
    ensures -0x8000_0000 <= x < 0x8000_0000 ==> w == x
    ensures (x - w) % 0x1_0000_0000 == 0
  {
    (x + 0x8000_0000) % 0x1_0000_0000 - 0x8000_0000
  }

  /** The signed value that `d` stands for among the `len`-bit magnitudes. */
  function Extend(len: nat, d: nat): int {
    if len > 0 && d < Pow(2, len - 1) then d - (Pow(2, len) - 1) else d
  }

  /** A window table as the table builder makes it. */
  ghost predicate IsTable(h: seq<nat>) {
    && |h| > 0 && 1 <= h[0] <= MAX_LENGTH && |h| == 1 + Pow(2, h[0])
    && forall y :: 1 <= y < |h| ==> h[y] / 256 <= h[0]
  }

  // ---------------------------------------------------------------------------------------
  // The decoder on the stream of bits
  // ---------------------------------------------------------------------------------------

  function Symbol(s: Stream, h: seq<nat>): (Result<nat, ReadError>, Stream)
    requires IsTable(h)
  {
    Get(s, h[0], Some(h[1..]))
  }

  /** The DC difference: a category, then its magnitude bits; category 16 has none. */
  function ReadDiff(s: Stream, hDc: seq<nat>): Result<(int, Stream), ScanError>
    requires IsTable(hDc)
  {
    var (cat, s1) := Symbol(s, hDc);
    if cat.Err? then Err(Underflow)
    else if cat.value == 16 then Ok((-32768, s1))
    else
      var (d, s2) := Get(s1, cat.value, None);
      if d.Err? then Err(Underflow) else Ok((Extend(cat.value, d.value), s2))
  }

  /** The AC coefficients from file position `i` on, dequantised into `cs`. */
  function ReadAc(s: Stream, hAc: seq<nat>, quant: seq<nat>, i: nat, cs: seq<int>): Result<(seq<int>, Stream), ScanError>
    requires IsTable(hAc) && |quant| == 64 == |cs|
    decreases 64 - i
  {
    if i >= 64 then Ok((cs, s))
    else
      var (sym, s1) := Symbol(s, hAc);
      if sym.Err? then Err(Underflow)
      else
        var at, len := i + sym.value / 16, sym.value % 16;
        if len == 0 && sym.value / 16 < 15 then Ok((cs, s1))
        else
          var (d, s2) := Get(s1, len, None);
          if d.Err? then Err(Underflow)
          else
            var cs' := if at < 64 then cs[Zigzag(at) := Extend(len, d.value) * quant[at]] else cs;
            ReadAc(s2, hAc, quant, at + 1, cs')
  }

  function Blank(vpred: int): (cs: seq<int>)
    ensures |cs| == 64 && cs[0] == vpred && forall n :: 1 <= n < 64 ==> cs[n] == 0
  {
    [vpred] + seq(63, _ => 0)
  }

  /** One block: the DC predictor after it, its 64 coefficients, and what is left. */
  function ReadBlock(s: Stream, hDc: seq<nat>, hAc: seq<nat>, quant: seq<nat>, vpred: int): Result<(int, seq<int>, Stream), ScanError>
    requires IsTable(hDc) && IsTable(hAc) && |quant| == 64
  {
    var dc :- ReadDiff(s, hDc);
    var vpred' := Wrap32(vpred + dc.0 * quant[0]);
    var ac :- ReadAc(dc.1, hAc, quant, 1, Blank(vpred'));
    Ok((vpred', ac.0, ac.1))
  }

  /** `n` blocks, with the DC predictor carried from one to the next. */
  function ReadBlocks(s: Stream, hDc: seq<nat>, hAc: seq<nat>, quant: seq<nat>, n: nat, vpred: int)
    : Result<(seq<int>, seq<seq<int>>), ScanError>
    requires IsTable(hDc) && IsTable(hAc) && |quant| == 64
    decreases n
  {
    if n == 0 then Ok(([], []))
    else
      var block :- ReadBlock(s, hDc, hAc, quant, vpred);
      var rest :- ReadBlocks(block.2, hDc, hAc, quant, n - 1, block.0);
      Ok(([block.0] + rest.0, [block.1] + rest.1))
  }

  function Decoded(data: seq<byte>, hDc: seq<nat>, hAc: seq<nat>, quant: seq<nat>, n: nat)
    : Result<(seq<int>, seq<seq<int>>), ScanError>
    requires IsTable(hDc) && IsTable(hAc)
  {
    if |quant| != 64 then Err(NoDqt)
    else ReadBlocks(Stream(ByteBits(Unstuff(data)), EndingOf(data)), hDc, hAc, quant, n, VPRED0)
  }

  // ---------------------------------------------------------------------------------------
  // The decoder as it runs
  // ---------------------------------------------------------------------------------------

  /** Reading on after blocks already decoded. */
  function After(vpreds: seq<int>, coeffs: seq<seq<int>>, rest: Result<(seq<int>, seq<seq<int>>), ScanError>)
    : Result<(seq<int>, seq<seq<int>>), ScanError>
  {
    match rest
    case Ok(more) => Ok((vpreds + more.0, coeffs + more.1))
    case Err(e) => Err(e)
  }

  lemma AfterNone(rest: Result<(seq<int>, seq<seq<int>>), ScanError>)
    ensures After([], [], rest) == rest
  {
    if rest.Ok? {
      assert [] + rest.value.0 == rest.value.0 && [] + rest.value.1 == rest.value.1;
    }
  }

  lemma BlocksStep(vpreds: seq<int>, coeffs: seq<seq<int>>, s: Stream, hDc: seq<nat>, hAc: seq<nat>, quant: seq<nat>, n: nat, vpred: int)
    requires IsTable(hDc) && IsTable(hAc) && |quant| == 64 && n > 0
    ensures var block := ReadBlock(s, hDc, hAc, quant, vpred);
            After(vpreds, coeffs, ReadBlocks(s, hDc, hAc, quant, n, vpred))
            == match block
               case Err(e) => Err(e)
               case Ok(b) => After(vpreds + [b.0], coeffs + [b.1], ReadBlocks(b.2, hDc, hAc, quant, n - 1, b.0))
  {
    hide ReadBlock, IsTable;
    var block := ReadBlock(s, hDc, hAc, quant, vpred);
    if block.Ok? {
      var rest := ReadBlocks(block.value.2, hDc, hAc, quant, n - 1, block.value.0);
      if rest.Ok? {
        assert vpreds + [block.value.0] + rest.value.0 == vpreds + ([block.value.0] + rest.value.0);
        assert coeffs + [block.value.1] + rest.value.1 == coeffs + ([block.value.1] + rest.value.1);
      }
    }
  }

  lemma BlocksNone(vpreds: seq<int>, coeffs: seq<seq<int>>, s: Stream, hDc: seq<nat>, hAc: seq<nat>, quant: seq<nat>, vpred: int)
    requires IsTable(hDc) && IsTable(hAc) && |quant| == 64
    ensures After(vpreds, coeffs, ReadBlocks(s, hDc, hAc, quant, 0, vpred)) == Ok((vpreds, coeffs))
  {
    hide IsTable;
    assert vpreds + [] == vpreds && coeffs + [] == coeffs;
  }

  method ReadDiffBits(br: BitReader, hDc: seq<nat>) returns (r: Result<int, ScanError>)
    requires br.Valid() && IsTable(hDc)
    modifies br
    ensures var spec := ReadDiff(old(br.Left()), hDc);
            && r.Ok? == spec.Ok?
            && (r.Ok? ==> br.Valid() && spec.value == (r.value, br.Left()))
            && (r.Err? ==> spec == Err(r.error))
  {
    hide Get, Pow, BitReader.Left;
    var cat := br.GetBitHuff(hDc[0], Some(hDc[1..]));
    if cat.Err? {
      return Err(Underflow);
    }
    if cat.value == 16 {
      return Ok(-32768);
    }
    var d := br.GetBitHuff(cat.value, None);
    if d.Err? {
      return Err(Underflow);
    }
    return Ok(Extend(cat.value, d.value));
  }

  method ReadAcLoop(br: BitReader, hAc: seq<nat>, quant: seq<nat>, vpred: int) returns (r: Result<seq<int>, ScanError>)
    requires br.Valid() && IsTable(hAc) && |quant| == 64
    modifies br
    ensures var spec := ReadAc(old(br.Left()), hAc, quant, 1, Blank(vpred));
            && r.Ok? == spec.Ok?
            && (r.Ok? ==> br.Valid() && spec.value == (r.value, br.Left()))
            && (r.Err? ==> spec == Err(r.error))
  {
    hide Get, Zigzag, Pow, BitReader.Left;
    var cs := new int[64](_ => 0);
    cs[0] := vpred;
    assert cs[..] == Blank(vpred);
    var i := 1;
    while i < 64
      invariant br.Valid() && fresh(cs)
      invariant ReadAc(br.Left(), hAc, quant, i, cs[..]) == ReadAc(old(br.Left()), hAc, quant, 1, Blank(vpred))
      decreases 64 - i
    {
      var sym := br.GetBitHuff(hAc[0], Some(hAc[1..]));
      if sym.Err? {
        return Err(Underflow);
      }
      var skip := sym.value / 16;
      i := i + skip;
      var len := sym.value % 16;
      if len == 0 && skip < 15 {
        return Ok(cs[..]);
      }
      var d := br.GetBitHuff(len, None);
      if d.Err? {
        return Err(Underflow);
      }
      if i < 64 {
        cs[Zigzag(i)] := Extend(len, d.value) * quant[i];
      }
      i := i + 1;
    }
    return Ok(cs[..]);
  }

  method DecodeScan(data: seq<byte>, hDc: seq<nat>, hAc: seq<nat>, quant: seq<nat>, nblocks: nat)
    returns (r: Result<(seq<int>, seq<seq<int>>), ScanError>)
    requires IsTable(hDc) && IsTable(hAc)
    ensures r == Decoded(data, hDc, hAc, quant, nblocks)
  {
    hide ReadDiff, ReadAc, ReadBlocks, After, IsTable, BitReader.Left, BitReader.Valid, Unstuff, ByteBits, EndingOf;
    if |quant| != 64 {
      return Err(NoDqt);
    }
    var br := new BitReader(data);
    var vpred := VPRED0;
    var vpreds: seq<int>, coeffs: seq<seq<int>> := [], [];
    ghost var spec := ReadBlocks(br.Left(), hDc, hAc, quant, nblocks, VPRED0);
    AfterNone(spec);
    for k := 0 to nblocks
      invariant br.Valid() && fresh(br)
      invariant After(vpreds, coeffs, ReadBlocks(br.Left(), hDc, hAc, quant, nblocks - k, vpred)) == spec
    {
      BlocksStep(vpreds, coeffs, br.Left(), hDc, hAc, quant, nblocks - k, vpred);
      var diff := ReadDiffBits(br, hDc);
      if diff.Err? {
        return Err(diff.error);
      }
      vpred := Wrap32(vpred + diff.value * quant[0]);
      var cs := ReadAcLoop(br, hAc, quant, vpred);
      if cs.Err? {
        return Err(cs.error);
      }
      vpreds := vpreds + [vpred];
      coeffs := coeffs + [cs.value];
    }
    BlocksNone(vpreds, coeffs, br.Left(), hDc, hAc, quant, vpred);
    return Ok((vpreds, coeffs));
  }
}
