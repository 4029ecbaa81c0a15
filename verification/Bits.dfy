// Bitwise operations on natural numbers, with the facts about masks that the C code's
// use of &, | and ^ relies on.
module Bits {
  import opened Arith

  function And(a: nat, b: nat): (r: nat)
    ensures r <= a && r <= b
  {
    if a == 0 || b == 0 then 0 else 2 * And(a / 2, b / 2) + (if a % 2 == 1 && b % 2 == 1 then 1 else 0)
  }

  function Or(a: nat, b: nat): (r: nat)
    ensures r >= a && r >= b
    decreases a + b
  {
    if a == 0 then b
    else if b == 0 then a
    else 2 * Or(a / 2, b / 2) + (if a % 2 == 1 || b % 2 == 1 then 1 else 0)
  }

  function Xor(a: nat, b: nat): nat
    decreases a + b
  {
    if a == 0 then b
    else if b == 0 then a
    else 2 * Xor(a / 2, b / 2) + (if a % 2 != b % 2 then 1 else 0)
  }

  // Dividing by twice a power of two is dividing by two and then by the power.
  lemma HalfDiv(a: nat, n: nat)
    requires n >= 1
    ensures (a / 2) / n == a / (2 * n)
    ensures a % (2 * n) == 2 * ((a / 2) % n) + a % 2
  {
    var h := a / 2;
    var q, r := h / n, h % n;
    assert h == n * q + r;
    assert a == 2 * h + a % 2;
    assert a == (2 * n) * q + (2 * r + a % 2) by { assert 2 * (n * q) == (2 * n) * q; }
    DivUnique(a, 2 * n, q, 2 * r + a % 2);
  }

  // A mask of k ones keeps the low k bits.
  lemma {:induction false} AndLowMask(a: nat, k: nat)
    ensures And(a, Pow2(k) - 1) == a % Pow2(k)
  {
    if k == 0 {
    } else if a != 0 {
      AndLowMask(a / 2, k - 1);
      HalfDiv(a, Pow2(k - 1));
      assert Pow2(k) - 1 == 2 * (Pow2(k - 1) - 1) + 1;
    }
  }

  function Shr(a: nat, j: nat): nat {
    DivNonNegative(a, Pow2(j));
    a / Pow2(j)
  }

  lemma ShrStep(a: nat, j: nat)
    requires j > 0
    ensures Shr(a, j) == Shr(a / 2, j - 1)
  {
    HalfDiv(a, Pow2(j - 1));
  }

  // A mask shifted by j selects from the bits at j and above.
  lemma {:induction false} AndShiftedMask(a: nat, m: nat, j: nat)
    ensures And(a, m * Pow2(j)) == And(Shr(a, j), m) * Pow2(j)
  {
    hide And;
    if j == 0 {
      assert m * 1 == m && Shr(a, 0) == a;
    } else {
      hide Shr;
      AndShiftedMask(a / 2, m, j - 1);
      ShrStep(a, j);
      AndShiftStep(a, m, Pow2(j - 1), And(Shr(a, j), m));
    }
  }

  lemma AndShiftStep(a: nat, m: nat, n: nat, x: nat)
    requires And(a / 2, m * n) == x * n
    ensures And(a, m * (2 * n)) == x * (2 * n)
  {
    hide And;
    MulSwap2(m, n);
    MulSwap2(x, n);
    AndDouble(a, m * n);
  }

  lemma MulSwap2(m: nat, n: nat)
    ensures m * (2 * n) == 2 * (m * n)
  {}

  lemma AndDouble(a: nat, b: nat)
    ensures And(a, 2 * b) == 2 * And(a / 2, b)
  {
    assert (2 * b) % 2 == 0 && (2 * b) / 2 == b;
  }

  // The field of k bits at position j.
  lemma AndField(a: nat, k: nat, j: nat)
    ensures And(a, (Pow2(k) - 1) * Pow2(j)) == (Shr(a, j) % Pow2(k)) * Pow2(j)
  {
    hide And, Shr;
    AndShiftedMask(a, Pow2(k) - 1, j);
    AndLowMask(Shr(a, j), k);
  }

  lemma AndBit(a: nat, j: nat)
    ensures And(a, Pow2(j)) == (Shr(a, j) % 2) * Pow2(j)
  {
    hide And, Shr;
    AndField(a, 1, j);
  }

  // Bits that do not meet: or is addition.
  lemma {:induction false} OrDisjoint(a: nat, b: nat, k: nat)
    requires b < Pow2(k)
    ensures Or(a * Pow2(k), b) == a * Pow2(k) + b
  {
    if k > 0 {
      var n := Pow2(k - 1);
      MulSwap2(a, n);
      assert (a * Pow2(k)) / 2 == a * n && (a * Pow2(k)) % 2 == 0;
      OrDisjoint(a, b / 2, k - 1);
    }
  }

  lemma {:induction false} XorOnes(a: nat, k: nat)
    requires a < Pow2(k)
    ensures Xor(a, Pow2(k) - 1) == Pow2(k) - 1 - a
  {
    if k > 0 {
      XorOnes(a / 2, k - 1);
      assert Pow2(k) - 1 == 2 * (Pow2(k - 1) - 1) + 1;
    }
  }

  // The usual test for a power of two.
  lemma {:induction false} AndPred(x: nat)
    requires x >= 1
    ensures And(x, x - 1) == 0 <==> IsPow2(x)
  {
    if x == 1 {
      assert Pow2(0) == 1;
    } else if x % 2 == 0 {
      AndPred(x / 2);
      assert (x - 1) / 2 == x / 2 - 1;
      if IsPow2(x / 2) { var k: nat :| x / 2 == Pow2(k); assert x == Pow2(k + 1); }
      if IsPow2(x) { var k: nat :| x == Pow2(k); assert x / 2 == Pow2(k - 1); }
    } else {
      assert (x - 1) / 2 == x / 2;
      AndSelf(x / 2);
      if IsPow2(x) { var k: nat :| x == Pow2(k); Pow2Even(k); }
    }
  }

  lemma Pow2Even(k: nat)
    ensures k > 0 ==> Pow2(k) % 2 == 0
  {}

  lemma {:induction false} AndSelf(x: nat)
    ensures And(x, x) == x
  {
    if x > 0 { AndSelf(x / 2); }
  }

  // Or acts on the low k bits separately.
  lemma {:induction false} OrLow(a: nat, b: nat, c: nat, k: nat)
    requires b < Pow2(k) && c < Pow2(k)
    ensures Or(a * Pow2(k) + b, c) == a * Pow2(k) + Or(b, c)
  {
    if k > 0 {
      var n := Pow2(k - 1);
      MulSwap2(a, n);
      var x := a * Pow2(k) + b;
      assert x / 2 == a * n + b / 2 && x % 2 == b % 2;
      OrLow(a, b / 2, c / 2, k - 1);
    }
  }

  lemma {:induction false} OrSymmetric(a: nat, b: nat)
    ensures Or(a, b) == Or(b, a)
    decreases a + b
  {
    if a > 0 && b > 0 { OrSymmetric(a / 2, b / 2); }
  }
}
