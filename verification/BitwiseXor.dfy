/** Exclusive or on natural numbers, the bitwise `^` of the source's unsigned words. */
module BitwiseXor {
  import opened Prelude

  function Xor(a: nat, b: nat): nat
    decreases a + b
  {
    if a == 0 && b == 0 then 0 else (if a % 2 == b % 2 then 0 else 1) + 2 * Xor(a / 2, b / 2)
  }

  lemma XorZero(a: nat)
    ensures Xor(a, 0) == a == Xor(0, a)
  {
    if a != 0 {
      XorZero(a / 2);
    }
  }

  lemma XorComm(a: nat, b: nat)
    ensures Xor(a, b) == Xor(b, a)
    decreases a + b
  {
    if a != 0 || b != 0 {
      XorComm(a / 2, b / 2);
    }
  }

  lemma XorSelf(a: nat)
    ensures Xor(a, a) == 0
  {
    if a != 0 {
      XorSelf(a / 2);
    }
  }

  lemma XorHalf(a: nat, b: nat)
    ensures Xor(a, b) / 2 == Xor(a / 2, b / 2)
    ensures Xor(a, b) % 2 == if a % 2 == b % 2 then 0 else 1
  {
  }

  lemma {:induction false} XorAssoc(a: nat, b: nat, c: nat)
    ensures Xor(Xor(a, b), c) == Xor(a, Xor(b, c))
    decreases a + b + c
  {
    if a + b + c != 0 {
      hide Xor;
      XorHalf(a, b);
      XorHalf(b, c);
      XorHalf(Xor(a, b), c);
      XorHalf(a, Xor(b, c));
      XorAssoc(a / 2, b / 2, c / 2);
    }
  }

  /** Adding the same word twice removes it. */
  lemma XorCancel(a: nat, b: nat)
    ensures Xor(Xor(a, b), b) == a
  {
    XorAssoc(a, b, b);
    XorSelf(b);
    XorZero(a);
  }

  lemma DivStep(a: nat, n: nat)
    requires n > 0
    ensures (a / 2) / Pow(2, n - 1) == a / Pow(2, n)
    ensures a % Pow(2, n) == 2 * ((a / 2) % Pow(2, n - 1)) + a % 2
  {
    var p := Pow(2, n - 1);
    var q, r := a / Pow(2, n), a % Pow(2, n);
    assert a == (2 * p) * q + r;
    MulAssociates(2, p, q);
    assert a / 2 == p * q + r / 2;
    DivUnique(a / 2, p, q, r / 2);
  }

  lemma {:induction false} XorDiv(a: nat, b: nat, n: nat)
    ensures Xor(a, b) / Pow(2, n) == Xor(a / Pow(2, n), b / Pow(2, n))
  {
    if n != 0 {
      XorHalf(a, b);
      XorDiv(a / 2, b / 2, n - 1);
      DivStep(a, n);
      DivStep(b, n);
      DivStep(Xor(a, b), n);
    }
  }

  lemma {:induction false} XorBound(a: nat, b: nat, n: nat)
    requires a < Pow(2, n) && b < Pow(2, n)
    ensures Xor(a, b) < Pow(2, n)
  {
    if n != 0 {
      XorHalf(a, b);
      XorBound(a / 2, b / 2, n - 1);
    }
  }

  lemma HalveDouble(a: nat, k: nat)
    requires a == 2 * k
    ensures a / 2 == k && a % 2 == 0
  {
  }

  /** Words without a common bit: exclusive or is addition. */
  lemma {:induction false} XorDisjoint(h: nat, l: nat, n: nat)
    requires l < Pow(2, n)
    ensures Xor(h * Pow(2, n), l) == h * Pow(2, n) + l
  {
    if n == 0 {
      XorZero(h);
    } else {
      XorDisjoint(h, l / 2, n - 1);
      hide Xor;
      var a, k := h * Pow(2, n), h * Pow(2, n - 1);
      MulAssociates(2, h, Pow(2, n - 1));
      HalveDouble(a, k);
      XorHalf(a, l);
    }
  }
}
