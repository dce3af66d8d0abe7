/** Shared vocabulary: failure-carrying results, octets, concatenation and powers. */
module Prelude {

  datatype Option<+T> = None | Some(value: T)

  datatype Result<+T, +E> = Ok(value: T) | Err(error: E) {
    predicate IsFailure() {
      Err?
    }
    function PropagateFailure<U>(): Result<U, E>
      requires Err?
    {
      Err(error)
    }
    function Extract(): T
      requires Ok?
    {
      value
    }
  }

  /** An octet. */
  type byte = i: int | 0 <= i < 256

  /** The concatenation of a list of sequences. */
  function Flatten<T>(ss: seq<seq<T>>): seq<T> {
    if ss == [] then [] else ss[0] + Flatten(ss[1..])
  }

  lemma FlattenAppend<T>(ss: seq<seq<T>>, ts: seq<seq<T>>)
    ensures Flatten(ss + ts) == Flatten(ss) + Flatten(ts)
  {
    if ss == [] {
      assert ss + ts == ts;
    } else {
      assert (ss + ts)[1..] == ss[1..] + ts;
      FlattenAppend(ss[1..], ts);
    }
  }

  lemma FlattenSnoc<T>(ss: seq<seq<T>>, t: seq<T>)
    ensures Flatten(ss + [t]) == Flatten(ss) + t
  {
    FlattenAppend(ss, [t]);
    assert Flatten([t]) == t + Flatten([]);
  }

  function Pow(b: nat, e: nat): (p: nat)
    ensures b > 0 ==> p > 0
  {
    if e == 0 then 1 else b * Pow(b, e - 1)
  }

  lemma {:induction false} PowAdd(b: nat, m: nat, n: nat)
    ensures Pow(b, m + n) == Pow(b, m) * Pow(b, n)
  {
    if m != 0 {
      PowAdd(b, m - 1, n);
      MulAssociates(b, Pow(b, m - 1), Pow(b, n));
    }
  }

  lemma MulGap(p: nat, x: nat, y: nat)
    ensures x < y ==> p * x + p <= p * y
  {
    if x < y {
      var d := y - x - 1;
      assert p * y == p * (x + 1 + d) == p * x + p + p * d;
    }
  }

  lemma MulDistributes(a: nat, b: nat, c: nat)
    ensures (a + b) * c == a * c + b * c == c * a + c * b
  {
  }

  lemma MulAssociates(a: nat, b: nat, c: nat)
    ensures (a * b) * c == a * (b * c) == b * (a * c)
  {
  }

  /** Quotient and remainder are unique. */
  lemma DivUnique(a: nat, p: nat, q: nat, r: nat)
    requires a == p * q + r && r < p
    ensures a / p == q && a % p == r
  {
    assert a == p * (a / p) + a % p;
    MulGap(p, q, a / p);
    MulGap(p, a / p, q);
  }

  /** The bytes of a file delivered as reads; the first empty read is its end. */
  function FileBytes(bufs: seq<seq<byte>>): seq<byte> {
    if bufs == [] || bufs[0] == [] then [] else bufs[0] + FileBytes(bufs[1..])
  }

  /** A read that is not empty comes before the rest; an empty one, or none, is the end. */
  lemma FileBytesStep(bufs: seq<seq<byte>>, r: nat)
    requires r <= |bufs|
    ensures if r < |bufs| && bufs[r] != [] then FileBytes(bufs[r..]) == bufs[r] + FileBytes(bufs[r + 1..])
            else FileBytes(bufs[r..]) == []
  {
    if r < |bufs| {
      assert bufs[r..][1..] == bufs[r + 1..];
    }
  }

  /** However a file is cut into reads, its bytes are their concatenation. */
  lemma {:induction false} ChunkingIrrelevant(bufs: seq<seq<byte>>)
    requires forall r :: 0 <= r < |bufs| ==> bufs[r] != []
    ensures FileBytes(bufs) == Flatten(bufs)
  {
    if bufs != [] {
      ChunkingIrrelevant(bufs[1..]);
    }
  }
}
