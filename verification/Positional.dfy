/** Numbers written with a fixed base, the most significant digit first. */
module Positional {
  import opened Prelude

  function Value(base: nat, digits: seq<nat>): nat {
    if digits == [] then 0 else Value(base, digits[..|digits| - 1]) * base + digits[|digits| - 1]
  }

  /** The `k` low digits of `n`. */
  function Digits(base: nat, k: nat, n: nat): (digits: seq<nat>)
    requires base > 0
    ensures |digits| == k
    ensures forall i :: 0 <= i < k ==> digits[i] < base
    decreases k
  {
    if k == 0 then [] else Digits(base, k - 1, n / base) + [n % base]
  }

  predicate InBase(base: nat, digits: seq<nat>) {
    forall i :: 0 <= i < |digits| ==> digits[i] < base
  }

  lemma {:induction false} ValueAppend(base: nat, a: seq<nat>, b: seq<nat>)
    ensures Value(base, a + b) == Value(base, a) * Pow(base, |b|) + Value(base, b)
    decreases |b|
  {
    if b == [] {
      assert a + b == a;
    } else {
      var n := |b| - 1;
      var b', last := b[..n], b[n];
      assert (a + b)[..|a + b| - 1] == a + b';
      ValueAppend(base, a, b');
      AppendDigit(base, Value(base, a), Pow(base, n), Value(base, b'), last);
    }
  }

  lemma AppendDigit(base: nat, x: nat, p: nat, v: nat, d: nat)
    ensures (x * p + v) * base + d == x * (base * p) + (v * base + d)
  {
    MulDistributes(x * p, v, base);
    MulAssociates(base, x, p);
  }

  lemma ValueNone(base: nat)
    ensures Value(base, []) == 0 && Pow(base, 0) == 1
  {
  }

  lemma PowSucc(base: nat, e: nat)
    ensures Pow(base, e + 1) == base * Pow(base, e)
  {
  }

  lemma ValueOne(base: nat, d: nat)
    ensures Value(base, [d]) == d
  {
    assert [d][..0] == [];
  }

  lemma {:induction false} ValueBound(base: nat, digits: seq<nat>)
    requires InBase(base, digits) && base > 0
    ensures Value(base, digits) < Pow(base, |digits|)
  {
    if digits != [] {
      var n := |digits| - 1;
      ValueBound(base, digits[..n]);
      MulGap(base, Value(base, digits[..n]), Pow(base, n));
    }
  }

  lemma {:induction false} ValueOfDigits(base: nat, k: nat, n: nat)
    requires base > 1
    ensures Value(base, Digits(base, k, n)) == n % Pow(base, k)
    decreases k
  {
    if k != 0 {
      ValueOfDigits(base, k - 1, n / base);
      var d := Digits(base, k, n);
      assert d[..k - 1] == Digits(base, k - 1, n / base);
      SplitModulus(n, base, Pow(base, k - 1));
    }
  }

  lemma SplitModulus(n: nat, base: nat, p: nat)
    requires base > 0 && p > 0
    ensures base * p > 0
    ensures n % (base * p) == n / base % p * base + n % base
  {
    MulGap(base, 0, p);
    var m := n / base;
    DivMod(n, base);
    DivMod(m, p);
    SplitModulusAt(base, p, m / p, m % p, n % base);
  }

  lemma DivMod(a: nat, b: nat)
    requires b > 0
    ensures a == b * (a / b) + a % b && a % b < b
  {
  }

  lemma SplitModulusAt(base: nat, p: nat, q: nat, r: nat, d: nat)
    requires r < p && d < base && base * p > 0
    ensures (base * (p * q + r) + d) % (base * p) == r * base + d
  {
    var m := base * p;
    SplitIdentity(base, p, q, r, d);
    MulGap(base, r, p);
    assert r * base == base * r;
    DivUnique(m * q + (r * base + d), m, q, r * base + d);
  }

  lemma SplitIdentity(base: nat, p: nat, q: nat, r: nat, d: nat)
    ensures base * (p * q + r) + d == (base * p) * q + (r * base + d)
  {
    MulDistributes(p * q, r, base);
    MulAssociates(base, p, q);
  }

  lemma {:induction false} DigitsOfValue(base: nat, digits: seq<nat>)
    requires InBase(base, digits) && base > 1
    ensures Digits(base, |digits|, Value(base, digits)) == digits
  {
    if digits != [] {
      var n := |digits| - 1;
      DigitsOfValue(base, digits[..n]);
      LastDigit(base, Value(base, digits[..n]), digits[n]);
    }
  }

  lemma LastDigit(base: nat, v: nat, d: nat)
    requires d < base
    ensures (v * base + d) / base == v && (v * base + d) % base == d
  {
    assert v * base == base * v;
    DivUnique(v * base + d, base, v, d);
  }

  lemma ValueInjective(base: nat, a: seq<nat>, b: seq<nat>)
    requires InBase(base, a) && InBase(base, b) && base > 1
    requires |a| == |b| && Value(base, a) == Value(base, b)
    ensures a == b
  {
    DigitsOfValue(base, a);
    DigitsOfValue(base, b);
  }

  lemma {:induction false} ValueZeros(base: nat, digits: seq<nat>)
    requires base > 0
    ensures Value(base, digits) == 0 <==> forall i :: 0 <= i < |digits| ==> digits[i] == 0
  {
    if digits != [] {
      var n := |digits| - 1;
      ValueZeros(base, digits[..n]);
      assert digits == digits[..n] + [digits[n]];
      if Value(base, digits[..n]) > 0 {
        MulGap(base, 0, Value(base, digits[..n]));
      }
    }
  }

  /** Dictionary order on sequences of numbers. */
  predicate LexLess(a: seq<nat>, b: seq<nat>) {
    b != [] && (a == [] || a[0] < b[0] || (a[0] == b[0] && LexLess(a[1..], b[1..])))
  }

  /** Among numbers of one width, dictionary order is numeric order. */
  lemma {:induction false} LexIsNumeric(base: nat, a: seq<nat>, b: seq<nat>)
    requires InBase(base, a) && InBase(base, b) && base > 0 && |a| == |b|
    ensures LexLess(a, b) <==> Value(base, a) < Value(base, b)
  {
    if a != [] {
      var a', b' := a[1..], b[1..];
      LexIsNumeric(base, a', b');
      var p := Pow(base, |a'|);
      ValueHead(base, a);
      ValueHead(base, b);
      ValueBound(base, a');
      ValueBound(base, b');
      MulGap(p, a[0], b[0]);
      MulGap(p, b[0], a[0]);
    }
  }

  lemma ValueHead(base: nat, a: seq<nat>)
    requires a != []
    ensures Value(base, a) == Pow(base, |a| - 1) * a[0] + Value(base, a[1..])
  {
    hide Value, Pow;
    assert a == [a[0]] + a[1..];
    ValueAppend(base, [a[0]], a[1..]);
    ValueOne(base, a[0]);
  }

  /** The low digits of a number do not see its multiple of base^k. */
  lemma DigitsModulo(base: nat, k: nat, n: nat)
    requires base > 1
    ensures Digits(base, k, n % Pow(base, k)) == Digits(base, k, n)
  {
    var p := Pow(base, k);
    ValueOfDigits(base, k, n);
    DigitsOfValue(base, Digits(base, k, n));
  }

  lemma ModStep(base: nat, v: nat, digit: nat, m: nat, carry: nat, next: nat)
    requires m > 0 && next < m
    requires next + carry * m == v % m * base + digit
    ensures next == (v * base + digit) % m
  {
    DivMod(v, m);
    ModStepIdentity(base, v / m, v % m, digit, m, carry, next);
    DivUnique(v * base + digit, m, v / m * base + carry, next);
  }

  lemma ModStepIdentity(base: nat, q: nat, r: nat, digit: nat, m: nat, carry: nat, next: nat)
    requires next + carry * m == r * base + digit
    ensures (m * q + r) * base + digit == m * (q * base + carry) + next
  {
    MulDistributes(m * q, r, base);
    MulAssociates(m, q, base);
    MulDistributes(q * base, carry, m);
  }
}
