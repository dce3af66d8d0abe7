/** The greedy split of a clip's files into archive parts (tool/src/bake.rs). */
module Partition {
  import opened Prelude

  datatype PartitionError = MemberTooLarge(member: nat)

  type Part = seq<nat>

  function PartSum(sizes: seq<nat>, part: Part): nat {
    if part == [] then 0
    else PartSum(sizes, part[..|part| - 1]) + SizeOf(sizes, part[|part| - 1])
  }

  function SizeOf(sizes: seq<nat>, i: nat): nat {
    if i < |sizes| then sizes[i] else 0
  }

  function Indices(a: nat, b: nat): (r: seq<nat>)
    requires a <= b
    ensures |r| == b - a && forall k :: 0 <= k < |r| ==> r[k] == a + k
  {
    seq(b - a, k requires 0 <= k => a + k)
  }

  /** In order, contiguous, complete. */
  ghost predicate Covers(parts: seq<Part>, n: nat) {
    Flatten(parts) == Indices(0, n)
  }

  /** At most the target, or a single file. */
  ghost predicate Fits(sizes: seq<nat>, target: nat, part: Part) {
    |part| <= 1 || PartSum(sizes, part) <= target
  }

  ghost predicate AllFit(sizes: seq<nat>, target: nat, parts: seq<Part>) {
    forall k :: 0 <= k < |parts| ==> Fits(sizes, target, parts[k])
  }

  ghost predicate NoneEmpty(parts: seq<Part>) {
    forall k :: 0 <= k < |parts| ==> parts[k] != []
  }

  /** No part could have taken the first file of the next one. */
  ghost predicate Tight(sizes: seq<nat>, target: nat, parts: seq<Part>) {
    forall k :: 0 <= k < |parts| - 1 && parts[k + 1] != [] ==>
      PartSum(sizes, parts[k]) + SizeOf(sizes, parts[k + 1][0]) > target
  }

  /** The greedy parts of the first `n` files; one empty part when there are none. */
  function Split(sizes: seq<nat>, target: nat, n: nat): (parts: seq<Part>)
    ensures parts != []
  {
    if n == 0 then [[]]
    else
      Extended(sizes, target, Split(sizes, target, n - 1), n - 1)
  }

  lemma SumSnoc(sizes: seq<nat>, part: Part, i: nat)
    ensures PartSum(sizes, part + [i]) == PartSum(sizes, part) + SizeOf(sizes, i)
  {
    assert (part + [i])[..|part|] == part;
  }

  lemma GrowLast(init: seq<Part>, last: Part, i: nat)
    ensures Flatten(init + [last + [i]]) == Flatten(init + [last]) + [i]
  {
    hide Flatten;
    FlattenSnoc(init, last + [i]);
    FlattenSnoc(init, last);
  }

  /** The `n`-th file opens a part, or joins the last one. */
  function Extended(sizes: seq<nat>, target: nat, parts: seq<Part>, i: nat): (r: seq<Part>)
    requires parts != []
    ensures r != []
  {
    var last := parts[|parts| - 1];
    if last != [] && PartSum(sizes, last) + SizeOf(sizes, i) > target then parts + [[i]]
    else parts[..|parts| - 1] + [last + [i]]
  }

  ghost predicate Greedy(sizes: seq<nat>, target: nat, parts: seq<Part>, n: nat) {
    && Covers(parts, n) && AllFit(sizes, target, parts) && Tight(sizes, target, parts)
    && (if n > 0 then NoneEmpty(parts) else parts == [[]])
  }

  lemma ExtendedCovers(sizes: seq<nat>, target: nat, parts: seq<Part>, i: nat)
    requires parts != [] && Covers(parts, i)
    ensures Covers(Extended(sizes, target, parts, i), i + 1)
  {
    hide Flatten, PartSum, SizeOf;
    assert Indices(0, i + 1) == Indices(0, i) + [i];
    FlattenSnoc(parts, [i]);
    var m := |parts| - 1;
    assert parts == parts[..m] + [parts[m]];
    GrowLast(parts[..m], parts[m], i);
  }

  lemma ExtendedGreedy(sizes: seq<nat>, target: nat, parts: seq<Part>, i: nat)
    requires parts != [] && Greedy(sizes, target, parts, i)
    ensures Greedy(sizes, target, Extended(sizes, target, parts, i), i + 1)
  {
    hide Covers, PartSum, SizeOf;
    ExtendedCovers(sizes, target, parts, i);
    var m, last, r := |parts| - 1, parts[|parts| - 1], Extended(sizes, target, parts, i);
    SumSnoc(sizes, last, i);
    forall k | 0 <= k < |r|
      ensures Fits(sizes, target, r[k]) && r[k] != []
    {
      if k < m {
        assert r[k] == parts[k];
      }
    }
    forall k | 0 <= k < |r| - 1 && r[k + 1] != []
      ensures PartSum(sizes, r[k]) + SizeOf(sizes, r[k + 1][0]) > target
    {
      if k + 1 <= m {
        assert r[k] == parts[k];
        if parts[k + 1] != [] {
          assert r[k + 1][0] == parts[k + 1][0];
        }
      }
    }
  }

  /** The greedy parts are a partition into parts that fit, none empty unless there are no
      files, each full up to the next file. */
  lemma {:induction false} SplitIsGreedy(sizes: seq<nat>, target: nat, n: nat)
    ensures Greedy(sizes, target, Split(sizes, target, n), n)
  {
    hide Greedy;
    if n == 0 {
      NoFiles(sizes, target);
    } else {
      SplitIsGreedy(sizes, target, n - 1);
      ExtendedGreedy(sizes, target, Split(sizes, target, n - 1), n - 1);
    }
  }

  lemma NoFiles(sizes: seq<nat>, target: nat)
    ensures Greedy(sizes, target, [[]], 0)
  {
    var one: seq<Part> := [[]];
    assert one[1..] == [] && Flatten(one) == one[0] + Flatten(one[1..]);
  }

  lemma SplitStep(sizes: seq<nat>, target: nat, n: nat)
    ensures Split(sizes, target, 0) == [[]]
    ensures Split(sizes, target, n + 1) == Extended(sizes, target, Split(sizes, target, n), n)
  {
    hide Extended;
  }

  method PartitionFiles(sizes: seq<nat>, target: nat, max: nat) returns (r: Result<seq<Part>, PartitionError>)
    ensures (forall i :: 0 <= i < |sizes| ==> sizes[i] <= max) ==> r == Ok(Split(sizes, target, |sizes|))
    ensures r.Ok? ==> forall i :: 0 <= i < |sizes| ==> sizes[i] <= max
    ensures r.Err? ==> var i := r.error.member;
              i < |sizes| && sizes[i] > max && forall j :: 0 <= j < i ==> sizes[j] <= max
  {
    hide Split, PartSum;
    var parts: seq<Part> := [[]];
    var cur := 0;
    SplitStep(sizes, target, 0);
    NoSum(sizes);
    for i := 0 to |sizes|
      invariant parts != [] && parts == Split(sizes, target, i)
      invariant cur == PartSum(sizes, parts[|parts| - 1])
      invariant forall j :: 0 <= j < i ==> sizes[j] <= max
    {
      var size := sizes[i];
      if size > max {
        return Err(MemberTooLarge(i));
      }
      SplitStep(sizes, target, i);
      SumSnoc(sizes, parts[|parts| - 1], i);
      SumSnoc(sizes, [], i);
      if parts[|parts| - 1] != [] && cur + size > target {
        assert (parts + [[]])[..|parts|] == parts && [] + [i] == [i];
        parts := parts + [[]];
        cur := 0;
      }
      parts := parts[..|parts| - 1] + [parts[|parts| - 1] + [i]];
      cur := cur + size;
    }
    return Ok(parts);
  }

  lemma NoSum(sizes: seq<nat>)
    ensures PartSum(sizes, []) == 0
  {
  }

  // ---------------------------------------------------------------------------------------
  // No contiguous partition does with fewer parts
  // ---------------------------------------------------------------------------------------

  /** Where the `k`-th part begins. */
  function Start(parts: seq<Part>, k: nat): nat
    requires k <= |parts|
  {
    if k == 0 then 0 else Start(parts, k - 1) + |parts[k - 1]|
  }

  lemma {:induction false} StartAll(parts: seq<Part>)
    ensures Start(parts, |parts|) == |Flatten(parts)|
  {
    if parts != [] {
      var n := |parts| - 1;
      StartAll(parts[..n]);
      StartPrefix(parts, n, n);
      FlattenSnoc(parts[..n], parts[n]);
      assert parts[..n] + [parts[n]] == parts;
    }
  }

  lemma {:induction false} StartPrefix(parts: seq<Part>, n: nat, k: nat)
    requires k <= n <= |parts|
    ensures Start(parts[..n], k) == Start(parts, k)
  {
    if k > 0 {
      StartPrefix(parts, n, k - 1);
    }
  }

  lemma {:induction false} StartMonotone(parts: seq<Part>, j: nat, k: nat)
    requires j <= k <= |parts|
    ensures Start(parts, j) <= Start(parts, k)
    decreases k
  {
    if j < k {
      StartMonotone(parts, j, k - 1);
    }
  }

  /** The `k`-th part is the files from its start to the next. */
  lemma {:induction false} PartIs(parts: seq<Part>, n: nat, k: nat)
    requires Covers(parts, n) && k < |parts|
    ensures Start(parts, k + 1) <= n && parts[k] == Indices(Start(parts, k), Start(parts, k + 1))
  {
    var a, b := Start(parts, k), Start(parts, k + 1);
    StartMonotone(parts, k + 1, |parts|);
    StartAll(parts);
    var pre, rest := parts[..k], parts[k + 1..];
    assert parts == pre + ([parts[k]] + rest);
    FlattenAppend(pre, [parts[k]] + rest);
    assert ([parts[k]] + rest)[1..] == rest;
    StartAll(pre);
    StartPrefix(parts, k, k);
    assert parts[k] == Flatten(parts)[a..b];
  }

  lemma {:induction false} SumOfIndices(sizes: seq<nat>, a: nat, b: nat, c: nat)
    requires a <= b <= c
    ensures PartSum(sizes, Indices(a, c)) >= PartSum(sizes, Indices(b, c))
    decreases c
  {
    if b < c {
      SumOfIndices(sizes, a, b, c - 1);
      IndicesSnoc(a, c);
      IndicesSnoc(b, c);
    } else {
      assert Indices(b, c) == [];
    }
  }

  lemma IndicesSnoc(a: nat, c: nat)
    requires a < c
    ensures Indices(a, c)[..c - 1 - a] == Indices(a, c - 1) && Indices(a, c)[c - 1 - a] == c - 1
  {
  }

  lemma SumGrows(sizes: seq<nat>, a: nat, b: nat, c: nat)
    requires a <= b <= c
    ensures PartSum(sizes, Indices(a, c)) >= PartSum(sizes, Indices(a, b))
    decreases c
  {
    if b < c {
      SumGrows(sizes, a, b, c - 1);
      IndicesSnoc(a, c);
    }
  }

  /** A part that reaches from before a greedy part past the file after it does not fit. */
  lemma Overfull(sizes: seq<nat>, target: nat, f: nat, a: nat, e: nat, g: nat)
    requires f <= a < e < g && PartSum(sizes, Indices(a, e)) + SizeOf(sizes, e) > target
    ensures !Fits(sizes, target, Indices(f, g))
  {
    hide PartSum, SizeOf;
    SumOfIndices(sizes, f, a, g);
    SumGrows(sizes, a, e + 1, g);
    assert Indices(a, e + 1) == Indices(a, e) + [e];
    SumSnoc(sizes, Indices(a, e), e);
  }

  /** Greedy parts reach at least as far as those of any other partition whose parts fit. */
  lemma {:induction false} GreedyReachesFurther(sizes: seq<nat>, target: nat, greedy: seq<Part>, other: seq<Part>, k: nat)
    requires var n := |sizes|;
             && Covers(greedy, n) && NoneEmpty(greedy) && Tight(sizes, target, greedy)
             && Covers(other, n) && AllFit(sizes, target, other)
    requires k <= |greedy| && k <= |other|
    ensures Start(other, k) <= Start(greedy, k)
  {
    hide PartSum, SizeOf, Covers, Fits;
    if k > 0 {
      GreedyReachesFurther(sizes, target, greedy, other, k - 1);
      var n, a, e, f, g := |sizes|, Start(greedy, k - 1), Start(greedy, k), Start(other, k - 1), Start(other, k);
      PartIs(greedy, n, k - 1);
      PartIs(other, n, k - 1);
      StartOfAll(greedy, n);
      if k < |greedy| && g > e {
        PartIs(greedy, n, k);
        assert greedy[k][0] == e;
        Overfull(sizes, target, f, a, e, g);
      }
    }
  }

  lemma StartOfAll(parts: seq<Part>, n: nat)
    requires Covers(parts, n)
    ensures Start(parts, |parts|) == n
  {
    StartAll(parts);
  }

  /** For at least one file, no partition into contiguous parts that fit has fewer parts. */
  lemma SplitIsOptimal(sizes: seq<nat>, target: nat, other: seq<Part>)
    requires sizes != [] && Covers(other, |sizes|) && AllFit(sizes, target, other)
    ensures |Split(sizes, target, |sizes|)| <= |other|
  {
    hide Split, Covers, AllFit, Tight;
    var n := |sizes|;
    var greedy := Split(sizes, target, n);
    SplitIsGreedy(sizes, target, n);
    StartOfAll(other, n);
    var k := if |other| < |greedy| then |other| else 0;
    GreedyReachesFurther(sizes, target, greedy, other, k);
    PartIs(greedy, n, k);
    assert |greedy[k]| > 0;
  }

  /** No partition into contiguous parts that fit has fewer parts than the greedy one. */
  ghost predicate Optimal(sizes: seq<nat>, target: nat) {
    forall other: seq<Part> :: Covers(other, |sizes|) && AllFit(sizes, target, other) ==> |Split(sizes, target, |sizes|)| <= |other|
  }

  /** Exactly when there are files: without any there is one empty part where none would do. */
  lemma OptimalExactly(sizes: seq<nat>, target: nat)
    ensures Optimal(sizes, target) <==> sizes != []
  {
    if sizes == [] {
      var none: seq<Part> := [];
      assert Covers(none, 0) && AllFit(sizes, target, none);
      assert Split(sizes, target, 0) == [[]];
    } else {
      hide Split, Covers, AllFit;
      forall other: seq<Part> | Covers(other, |sizes|) && AllFit(sizes, target, other)
        ensures |Split(sizes, target, |sizes|)| <= |other|
      {
        SplitIsOptimal(sizes, target, other);
      }
    }
  }
}
