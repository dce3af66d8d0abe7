/** The incremental SHA-512 of tool/src/ascmhl.rs: a 128-octet partial-block buffer, the
    padding, and their agreement with the one-shot definition of FIPS 180-4. The 80-round
    block compression is a parameter: everything here holds for every compression function. */
module Sha512 {
  import opened Prelude
  import opened Positional

  type u64 = x: int | 0 <= x < 0x1_0000_0000_0000_0000

  type Words = w: seq<u64> | |w| == 8 witness [0, 0, 0, 0, 0, 0, 0, 0]
  type Block = b: seq<byte> | |b| == 128 witness seq(128, _ => 0)
  type Compression = (Words, Block) -> Words

  const INITIAL: Words := [
    0x6a09e667f3bcc908, 0xbb67ae8584caa73b, 0x3c6ef372fe94f82b, 0xa54ff53a5f1d36f1,
    0x510e527fade682d1, 0x9b05688c2b3e6c1f, 0x1f83d9abfb41bd6b, 0x5be0cd19137e2179
  ]

  const TWO_128: nat := 0x1_0000_0000_0000_0000_0000_0000_0000_0000

  // ---------------------------------------------------------------------------------------
  // The definition: pad the whole message, then chain the block function over it
  // ---------------------------------------------------------------------------------------

  /** The low `k` octets of `n`, most significant first. */
  function BigEndian(n: nat, k: nat): (s: seq<byte>)
    ensures |s| == k
  {
    if k == 0 then [] else BigEndian(n / 256, k - 1) + [n % 256]
  }

  /** Read as a number, the most significant octet first, they are `n` reduced. */
  lemma {:induction false} BigEndianValue(n: nat, k: nat)
    ensures Value(256, BigEndian(n, k)) == n % Pow(256, k)
    decreases k
  {
    BigEndianDigits(n, k);
    ValueOfDigits(256, k, n);
  }

  lemma {:induction false} BigEndianDigits(n: nat, k: nat)
    ensures BigEndian(n, k) == Digits(256, k, n)
    decreases k
  {
    if k > 0 {
      BigEndianDigits(n / 256, k - 1);
    }
  }

  function Zeros(k: nat): (s: seq<byte>)
    ensures |s| == k && forall i :: 0 <= i < k ==> s[i] == 0
  {
    seq(k, _ => 0)
  }

  /** The number of zero octets between the marker octet and the length field: the least
      that makes the padded message a whole number of blocks. */
  function PadZeros(length: nat): (k: nat)
    ensures k < 128 && (length + 1 + k + 16) % 128 == 0
  {
    var r := length % 128;
    if r < 112 then 111 - r else 239 - r
  }

  /** Section 5.1.2 of FIPS 180-4: a one bit, zeros, and the length in bits modulo 2^128. */
  function Padding(length: nat): seq<byte> {
    [0x80] + Zeros(PadZeros(length)) + BigEndian(8 * length % TWO_128, 16)
  }

  function Chain(f: Compression, h: Words, data: seq<byte>): Words
    requires |data| % 128 == 0
    decreases |data|
  {
    if data == [] then h else Chain(f, f(h, data[..128]), data[128..])
  }

  function Octets(words: seq<u64>): (s: seq<byte>)
    ensures |s| == 8 * |words|
  {
    if words == [] then [] else BigEndian(words[0], 8) + Octets(words[1..])
  }

  type Digest = d: seq<byte> | |d| == 64 witness seq(64, _ => 0)

  function Hash(f: Compression, message: seq<byte>): Digest {
    Octets(Chain(f, INITIAL, message + Padding(|message|)))
  }

  /** The padded message: the message, the marker octet, zeros, and in the last 16 octets the
      number of its bits modulo 2^128; a whole number of blocks, and the least possible. */
  lemma PaddedMessage(message: seq<byte>)
    ensures var n, p := |message|, message + Padding(|message|);
            && |p| % 128 == 0 && n + 17 <= |p| < n + 17 + 128
            && p[..n] == message && p[n] == 0x80
            && (forall i :: n < i < |p| - 16 ==> p[i] == 0)
            && Value(256, p[|p| - 16..]) == 8 * n % TWO_128
  {
    hide BigEndian, Value, Pow;
    var n, count := |message|, BigEndian(8 * |message| % TWO_128, 16);
    var p := message + Padding(n);
    assert p[|p| - 16..] == count;
    BigEndianValue(8 * n % TWO_128, 16);
    SixteenOctets();
    DivUnique(8 * n % TWO_128, TWO_128, 0, 8 * n % TWO_128);
  }

  lemma SixteenOctets()
    ensures Pow(256, 16) == TWO_128 && Pow(256, 8) == 0x1_0000_0000_0000_0000
  {
    assert Pow(256, 4) == 0x1_0000_0000;
    PowAdd(256, 4, 4);
    PowAdd(256, 8, 8);
  }

  /** Eight octets of a digest are one word of the last chaining value, in its place. */
  lemma DigestWord(f: Compression, message: seq<byte>, i: nat)
    requires i < 8 && |message + Padding(|message|)| % 128 == 0
    ensures Value(256, Hash(f, message)[8 * i..8 * i + 8]) == Chain(f, INITIAL, message + Padding(|message|))[i]
  {
    hide Chain, BigEndian, Value, Pow, Padding, Octets;
    WordAt(Chain(f, INITIAL, message + Padding(|message|)), i);
  }

  lemma {:induction false} WordAt(words: seq<u64>, i: nat)
    requires i < |words|
    ensures Value(256, Octets(words)[8 * i..8 * i + 8]) == words[i]
    decreases i
  {
    hide BigEndian, Value, Pow;
    var first, rest := BigEndian(words[0], 8), Octets(words[1..]);
    assert Octets(words) == first + rest;
    if i == 0 {
      BigEndianValue(words[0], 8);
      SixteenOctets();
      DivUnique(words[0], 0x1_0000_0000_0000_0000, 0, words[0]);
      assert (first + rest)[..8] == first;
    } else {
      WordAt(words[1..], i - 1);
      assert (first + rest)[8 * i..8 * i + 8] == rest[8 * (i - 1)..8 * (i - 1) + 8];
    }
  }

  const PRIMES: seq<nat> := [2, 3, 5, 7, 11, 13, 17, 19]
  const ROOTS: seq<nat> := [1, 1, 2, 2, 3, 3, 4, 4]

  /** Section 5.3.5 of FIPS 180-4: the initial words are the first 64 bits of the fractional parts
      of the square roots of the first eight primes. */
  lemma InitialWords(i: nat)
    requires i < 8
    ensures var root := ROOTS[i] * 0x1_0000_0000_0000_0000 + INITIAL[i];
            root * root <= PRIMES[i] * TWO_128 < (root + 1) * (root + 1)
  {
  }

  lemma {:induction false} ChainAppend(f: Compression, h: Words, a: seq<byte>, b: seq<byte>)
    requires |a| % 128 == 0 && |b| % 128 == 0
    ensures Chain(f, h, a + b) == Chain(f, Chain(f, h, a), b)
    decreases |a|
  {
    if a == [] {
      assert a + b == b;
    } else {
      assert (a + b)[..128] == a[..128];
      assert (a + b)[128..] == a[128..] + b;
      ChainAppend(f, f(h, a[..128]), a[128..], b);
    }
  }

  lemma ChainBlock(f: Compression, h: Words, data: seq<byte>, block: Block)
    requires |data| % 128 == 0
    ensures Chain(f, h, data + block) == f(Chain(f, h, data), block)
  {
    ChainAppend(f, h, data, block);
    assert block[..128] == block && block[128..] == [];
    assert Chain(f, Chain(f, h, data), block) == Chain(f, f(Chain(f, h, data), block), []);
  }

  lemma OctetsAppend(a: seq<u64>, b: seq<u64>)
    ensures Octets(a + b) == Octets(a) + Octets(b)
  {
    if a == [] {
      assert a + b == b;
    } else {
      assert (a + b)[1..] == a[1..] + b;
      OctetsAppend(a[1..], b);
    }
  }

  // ---------------------------------------------------------------------------------------
  // The streaming state
  // ---------------------------------------------------------------------------------------

  class Sha512State {
    const compress: Compression
    var h: Words
    const buf: array<byte>
    var bufLen: nat
    var total: nat
    /** Everything fed so far. */
    ghost var message: seq<byte>

    /** The chaining value covers all of the message but the octets held in the buffer. */
    ghost predicate Held()
      reads this, buf
    {
      && buf.Length == 128
      && bufLen <= 128
      && bufLen <= |message|
      && (|message| - bufLen) % 128 == 0
      && h == Chain(compress, INITIAL, message[..|message| - bufLen])
      && message[|message| - bufLen..] == buf[..bufLen]
    }

    /** And the buffer is not full. */
    ghost predicate Buffered()
      reads this, buf
    {
      Held() && bufLen < 128
    }

    ghost predicate Valid()
      reads this, buf
    {
      Buffered() && total == |message| % TWO_128
    }

    constructor (compress: Compression)
      ensures Valid() && fresh(buf)
      ensures message == [] && this.compress == compress
    {
      this.compress := compress;
      h := INITIAL;
      buf := new byte[128](_ => 0);
      bufLen := 0;
      total := 0;
      message := [];
    }

    /** Feed a chunk of any size. */
    method Update(data: seq<byte>)
      requires Valid()
      modifies this, buf
      ensures Valid()
      ensures message == old(message) + data
    {
      hide Chain;
      TotalStep(|message|, |data|);
      total := (total + |data|) % TWO_128;
      Absorb(data);
    }

    method Absorb(data: seq<byte>)
      requires Buffered()
      modifies this`h, this`bufLen, this`message, buf
      ensures Buffered()
      ensures message == old(message) + data
    {
      hide Chain, Held;
      var off := 0;
      if bufLen > 0 {
        off := TopUp(data);
      }
      off := WholeBlocks(data, off, old(message));
      if off < |data| {
        Keep(data[off..]);
      }
      assert data == data[..off] + data[off..];
    }

    /** Compress the whole blocks of `data` from `start` on. */
    method WholeBlocks(data: seq<byte>, start: nat, ghost before: seq<byte>) returns (off: nat)
      requires Buffered() && start <= |data| && (bufLen > 0 ==> start == |data|)
      requires message == before + data[..start]
      modifies this`h, this`message
      ensures Buffered() && off <= |data| < off + 128 && (bufLen > 0 ==> off == |data|)
      ensures message == before + data[..off]
    {
      hide Chain;
      off := start;
      while off + 128 <= |data|
        invariant off <= |data|
        invariant Buffered() && (bufLen > 0 ==> off == |data|)
        invariant message == before + data[..off]
      {
        WholeBlock(data[off..off + 128]);
        assert data[..off + 128] == data[..off] + data[off..off + 128];
        off := off + 128;
      }
    }

    /** Complete the partial block as far as `data` reaches, and compress it once full. */
    method TopUp(data: seq<byte>) returns (off: nat)
      requires Buffered() && bufLen > 0
      modifies this`h, this`bufLen, this`message, buf
      ensures Buffered() && off <= |data|
      ensures bufLen > 0 ==> off == |data|
      ensures message == old(message) + data[..off]
    {
      hide Chain;
      var take := if 128 - bufLen < |data| then 128 - bufLen else |data|;
      Append(data[..take]);
      off := take;
      if bufLen == 128 {
        Flush();
      }
    }

    /** Octets that fit go behind those in the buffer. */
    method Append(data: seq<byte>)
      requires Held() && bufLen + |data| <= 128
      modifies this`bufLen, this`message, buf
      ensures Held() && bufLen == old(bufLen) + |data|
      ensures message == old(message) + data
    {
      hide Chain;
      ghost var done := message[..|message| - bufLen];
      CopyInto(buf, bufLen, data);
      bufLen := bufLen + |data|;
      message := message + data;
      assert buf[..bufLen] == old(buf[..bufLen]) + data;
      assert message[..|message| - bufLen] == done;
      assert message[|message| - bufLen..] == old(message[|message| - bufLen..]) + data;
    }

    /** The full buffer is compressed. */
    method Flush()
      requires Held() && bufLen == 128
      modifies this`h, this`bufLen
      ensures Buffered() && bufLen == 0
    {
      hide Chain;
      ghost var done := message[..|message| - 128];
      assert buf[..128] == buf[..];
      ChainBlock(compress, INITIAL, done, buf[..]);
      assert message[..|message|] == done + buf[..];
      h := compress(h, buf[..]);
      bufLen := 0;
    }

    method WholeBlock(block: Block)
      requires Buffered() && bufLen == 0
      modifies this`h, this`message
      ensures Buffered()
      ensures message == old(message) + block
    {
      hide Chain;
      assert message[..|message|] == message;
      h := compress(h, block);
      ChainBlock(compress, INITIAL, message, block);
      message := message + block;
      assert message[..|message|] == message;
    }

    method Keep(data: seq<byte>)
      requires Buffered() && bufLen == 0 && |data| < 128
      modifies this`bufLen, this`message, buf
      ensures Buffered()
      ensures message == old(message) + data
    {
      Append(data);
    }

    /** Pad, compress the last one or two blocks and read the digest out. The state itself is
        left as it was. */
    method Finalize() returns (out: seq<byte>)
      requires Valid()
      ensures out == Hash(compress, message)
    {
      hide Chain, Octets;
      var bitLen := 8 * total % TWO_128;
      BitLength(|message|);
      var h := PadAndCompress(bitLen);
      out := [];
      for i := 0 to 8
        invariant out == Octets(h[..i])
      {
        assert h[..i + 1] == h[..i] + [h[i]];
        OctetsAppend(h[..i], [h[i]]);
        OctetsOne(h[i]);
        out := out + BigEndian(h[i], 8);
      }
      assert h[..8] == h;
    }

    method PadAndCompress(bitLen: nat) returns (h: Words)
      requires Buffered()
      ensures var tail := [0x80] + Zeros(PadZeros(|message|)) + BigEndian(bitLen, 16);
              h == Chain(compress, INITIAL, message + tail)
    {
      hide Chain, Zeros, BigEndian;
      var rem, remLen := Marked();
      PadZerosIs();
      h := CompressPadded(this.h, message[..|message| - bufLen], rem, remLen, bitLen);
      TailPieces(message, [0x80], Zeros(PadZeros(|message|)), BigEndian(bitLen, 16));
    }

    /** The buffered octets and the mark behind them. */
    method Marked() returns (rem: array<byte>, remLen: nat)
      requires Buffered()
      ensures fresh(rem) && rem.Length == 128 && remLen == bufLen + 1
      ensures message[..|message| - bufLen] + rem[..remLen] == message + [0x80]
    {
      hide Chain;
      rem := new byte[128];
      CopyInto(rem, 0, buf[..]);
      assert rem[..] == buf[..];
      remLen := bufLen;
      ghost var done := message[..|message| - bufLen];
      assert message == done + rem[..bufLen];
      rem[remLen] := 0x80;
      remLen := remLen + 1;
      assert done + rem[..remLen] == message + [0x80];
    }

    lemma PadZerosIs()
      requires Buffered()
      ensures |message| % 128 == bufLen && |message[..|message| - bufLen]| % 128 == 0
      ensures h == Chain(compress, INITIAL, message[..|message| - bufLen])
      ensures PadZeros(|message|) == if bufLen < 112 then 111 - bufLen else 239 - bufLen
    {
      hide Chain;
    }

    /** Zeros up to the length field of the last block, over an extra block if there is no room,
        then the length field. */
    method CompressPadded(h: Words, ghost done: seq<byte>, rem: array<byte>, from: nat, bitLen: nat) returns (next: Words)
      requires rem.Length == 128 && from <= 128
      requires |done| % 128 == 0 && h == Chain(compress, INITIAL, done)
      modifies rem
      ensures var zeros := Zeros(if from <= 112 then 112 - from else 240 - from);
              var padded := done + old(rem[..from]) + zeros + BigEndian(bitLen, 16);
              |padded| % 128 == 0 && next == Chain(compress, INITIAL, padded)
    {
      hide Chain, Zeros, BigEndian;
      if from <= 112 {
        next := LastBlock(h, done, rem, from, bitLen);
      } else {
        ghost var head := done + rem[..from];
        var first := 128 - from;
        next := OverflowBlock(h, done, rem, from);
        ghost var full := head + Zeros(first);
        next := LastBlock(next, full, rem, 0, bitLen);
        OverflowPieces(head, full, rem[..0], first, BigEndian(bitLen, 16));
      }
    }

    /** No room for the length: zeros to the end of the block, which is compressed. */
    method OverflowBlock(h: Words, ghost done: seq<byte>, rem: array<byte>, from: nat) returns (next: Words)
      requires rem.Length == 128 && from <= 128
      requires |done| % 128 == 0 && h == Chain(compress, INITIAL, done)
      modifies rem
      ensures |done + old(rem[..from]) + Zeros(128 - from)| % 128 == 0
      ensures next == Chain(compress, INITIAL, done + old(rem[..from]) + Zeros(128 - from))
    {
      hide Chain;
      var remLen := FillZeros(rem, from, 128);
      assert rem[..] == old(rem[..from]) + Zeros(128 - from);
      next := compress(h, rem[..]);
      ChainBlock(compress, INITIAL, done, rem[..]);
      assert done + rem[..] == done + old(rem[..from]) + Zeros(128 - from);
    }

    /** Zeros up to the length field, the length field, and the last compression. */
    method LastBlock(h: Words, ghost done: seq<byte>, rem: array<byte>, from: nat, bitLen: nat) returns (next: Words)
      requires rem.Length == 128 && from <= 112
      requires |done| % 128 == 0 && h == Chain(compress, INITIAL, done)
      modifies rem
      ensures (|done + old(rem[..from]) + Zeros(112 - from) + BigEndian(bitLen, 16)|) % 128 == 0
      ensures next == Chain(compress, INITIAL, done + old(rem[..from]) + Zeros(112 - from) + BigEndian(bitLen, 16))
      ensures rem[..from] == old(rem[..from])
    {
      hide Chain;
      var remLen := FillZeros(rem, from, 112);
      assert rem[..112] == old(rem[..from]) + Zeros(112 - from);
      CopyInto(rem, 112, BigEndian(bitLen, 16));
      assert rem[..] == old(rem[..from]) + Zeros(112 - from) + BigEndian(bitLen, 16);
      next := compress(h, rem[..]);
      ChainBlock(compress, INITIAL, done, rem[..]);
      assert done + rem[..] == done + old(rem[..from]) + Zeros(112 - from) + BigEndian(bitLen, 16);
    }
  }

  lemma TailPieces(message: seq<byte>, mark: seq<byte>, zeros: seq<byte>, count: seq<byte>)
    ensures message + mark + zeros + count == message + (mark + zeros + count)
  {
  }

  lemma OverflowPieces(head: seq<byte>, full: seq<byte>, none: seq<byte>, first: nat, count: seq<byte>)
    requires full == head + Zeros(first) && none == []
    ensures full + none + Zeros(112) + count == head + Zeros(first + 112) + count
  {
    assert Zeros(first) + Zeros(112) == Zeros(first + 112);
  }

  lemma OctetsOne(w: u64)
    ensures Octets([w]) == BigEndian(w, 8)
  {
    hide BigEndian;
  }

  lemma TotalStep(n: nat, k: nat)
    ensures (n % TWO_128 + k) % TWO_128 == (n + k) % TWO_128
  {
    var m := TWO_128;
    ModAdd(n, k, m);
  }

  lemma ModAdd(n: nat, k: nat, m: nat)
    requires m > 0
    ensures (n % m + k) % m == (n + k) % m
  {
    var q := n / m;
    assert n + k == (n % m + k) + q * m;
    ModMultiple(n % m + k, q, m);
  }

  lemma ModMultiple(a: nat, q: nat, m: nat)
    requires m > 0
    ensures (a + q * m) % m == a % m
  {
    assert a + q * m == m * (a / m + q) + a % m by {
      assert a == m * (a / m) + a % m;
    }
    DivUnique(a + q * m, m, a / m + q, a % m);
  }

  lemma BitLength(n: nat)
    ensures 8 * (n % TWO_128) % TWO_128 == 8 * n % TWO_128
  {
    var m := TWO_128;
    var q := n / m;
    assert 8 * n == 8 * (n % m) + 8 * q * m;
    ModMultiple(8 * (n % m), 8 * q, m);
  }

  method CopyInto(a: array<byte>, at: nat, data: seq<byte>)
    requires at + |data| <= a.Length
    modifies a
    ensures a[..] == old(a[..at]) + data + old(a[at + |data|..])
  {
    for i := 0 to |data|
      invariant forall k :: 0 <= k < at ==> a[k] == old(a[k])
      invariant forall k :: 0 <= k < i ==> a[at + k] == data[k]
      invariant forall k :: at + i <= k < a.Length ==> a[k] == old(a[k])
    {
      a[at + i] := data[i];
    }
    assert a[at..at + |data|] == data;
    assert a[..] == a[..at] + a[at..at + |data|] + a[at + |data|..];
  }

  method FillZeros(a: array<byte>, from: nat, to: nat) returns (end: nat)
    requires from <= to <= a.Length
    modifies a
    ensures end == to
    ensures a[..] == old(a[..from]) + Zeros(to - from) + old(a[to..])
  {
    hide Zeros;
    ghost var head := a[..from];
    ghost var was := a[..];
    ZerosSnoc(0);
    end := from;
    while end < to
      invariant from <= end <= to
      invariant a[..] == head + Zeros(end - from) + was[end..]
    {
      ZerosSnoc(end - from);
      assert was[end..] == [was[end]] + was[end + 1..];
      a[end] := 0;
      end := end + 1;
    }
  }

  lemma ZerosSnoc(n: nat)
    ensures Zeros(0) == [] && Zeros(n + 1) == Zeros(n) + [0]
  {
  }

  /** One pass over a file, whatever the sizes of its reads. */
  method HashReads(compress: Compression, bufs: seq<seq<byte>>) returns (digest: seq<byte>)
    ensures digest == Hash(compress, FileBytes(bufs))
  {
    hide Chain, Hash, Sha512State.Valid, Sha512State.Buffered, FileBytes;
    assert bufs[0..] == bufs;
    var s := new Sha512State(compress);
    var r := 0;
    while r < |bufs| && bufs[r] != []
      invariant 0 <= r <= |bufs|
      invariant s.Valid() && fresh(s) && fresh(s.buf)
      invariant s.compress == compress
      invariant s.message + FileBytes(bufs[r..]) == FileBytes(bufs)
    {
      FileBytesStep(bufs, r);
      s.Update(bufs[r]);
      r := r + 1;
    }
    FileBytesStep(bufs, r);
    assert s.message + [] == s.message;
    digest := s.Finalize();
  }
}
