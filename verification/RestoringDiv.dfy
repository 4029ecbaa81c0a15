// The RISC-V division routines: a restoring divider on words of W bits, and the signed
// wrappers around it.
module RestoringDiv {
  import opened Arith
  import opened Bits
  import opened WordDiv
  import opened SignedWords

  // The first loop: doubles the divisor until it has its top bit set or reaches the dividend.
  method Normalise(W: nat, n: nat, d: nat) returns (a2: nat, a3: nat, ghost j: nat)
    requires W >= 1 && n < Pow2(W) && 0 < d < Pow2(W)
    ensures a2 == d * Pow2(j) && a3 == Pow2(j) && n < 2 * a2
  {
    hide Wrap;
    a2, a3, j := d, 1, 0;
    OneTimes(d);
    if a2 >= n { return; }
    while true
      invariant a2 == d * Pow2(j) && a3 == Pow2(j) && 0 < a2 < Pow2(W)
      decreases Pow2(W) - a2
    {
      if Signed(a2, W) <= 0 { break; }
      DoubleFits(W, d, j, a2);
      a2 := Wrap(2 * a2, Pow2(W));
      a3 := Wrap(2 * a3, Pow2(W));
      j := j + 1;
      if !(n > a2) { break; }
    }
  }

  lemma DoubleFits(W: nat, d: nat, j: nat, a2: nat)
    requires W >= 1 && d > 0 && a2 == d * Pow2(j) && a2 < Pow2(W - 1)
    ensures Wrap(2 * a2, Pow2(W)) == 2 * a2 == d * Pow2(j + 1) && Wrap(2 * Pow2(j), Pow2(W)) == Pow2(j + 1)
    ensures 2 * a2 < Pow2(W)
  {
    MulLe(Pow2(j), 1, d);
    assert d * Pow2(j) == Pow2(j) * d;
    MulSwap2(d, Pow2(j));
    WrapOf(2 * a2, Pow2(W), 2 * a2, 0);
    WrapOf(2 * Pow2(j), Pow2(W), 2 * Pow2(j), 0);
  }

  // Where the subtract loop stands: the quotient bits above j are settled.
  ghost predicate Dividing(n: nat, d: nat, j: nat, c: nat, a0: nat, a1: nat, a2: nat, a3: nat) {
    && a2 == d * Pow2(j) && a3 == Pow2(j) && a1 < 2 * a2
    && a0 == c * Pow2(j + 1) && n == a0 * d + a1
  }

  // __udivdi3: quotient in a0 and remainder in a1.
  method Udivdi3(W: nat, n: nat, d: nat) returns (a0: nat, a1: nat)
    requires W >= 1 && n < Pow2(W) && d < Pow2(W)
    ensures d == 0 ==> a0 == Pow2(W) - 1 && a1 == n
    ensures d > 0 ==> n == a0 * d + a1 && a1 < d && a0 <= n
  {
    hide Dividing, Or;
    a1, a0 := n, Pow2(W) - 1;
    if d == 0 { return; }
    var a2: nat, a3: nat;
    ghost var j: nat;
    a2, a3, j := Normalise(W, n, d);
    a0 := 0;
    ghost var c: nat := 0;
    StartDividing(n, d, j, a2, a3);
    while true
      invariant Dividing(n, d, j, c, a0, a1, a2, a3)
      decreases j
    {
      ghost var b0, b1 := a0, a1;
      if a1 >= a2 {
        a1 := a1 - a2;
        a0 := Or(a0, a3);
      }
      DivideStep(n, d, j, c, b0, b1, a2, a3, a0, a1);
      c := if b1 >= a2 then 2 * c + 1 else 2 * c;
      a3 := a3 / 2;
      a2 := a2 / 2;
      if a3 == 0 { break; }
      j := j - 1;
    }
  }

  lemma StartDividing(n: nat, d: nat, j: nat, a2: nat, a3: nat)
    requires a2 == d * Pow2(j) && a3 == Pow2(j) && n < 2 * a2
    ensures Dividing(n, d, j, 0, 0, n, a2, a3)
  {}

  // One round settles bit j of the quotient.
  lemma DivideStep(n: nat, d: nat, j: nat, c: nat, a0: nat, a1: nat, a2: nat, a3: nat, a0': nat, a1': nat)
    requires d > 0 && Dividing(n, d, j, c, a0, a1, a2, a3)
    requires if a1 >= a2 then a1' == a1 - a2 && a0' == Or(a0, a3) else a1' == a1 && a0' == a0
    ensures a3 / 2 == 0 <==> j == 0
    ensures j > 0 ==> Dividing(n, d, j - 1, if a1 >= a2 then 2 * c + 1 else 2 * c, a0', a1', a2 / 2, a3 / 2)
    ensures j == 0 ==> n == a0' * d + a1' && a1' < d && a0' <= n
  {
    hide Dividing;
    SettleBit(n, d, j, c, a0, a1, a2, a3);
    HalveStep(d, j);
    DividingIs(n, d, j, c, a0, a1, a2, a3);
    var c' := if a1 >= a2 then 2 * c + 1 else 2 * c;
    assert a0' == c' * Pow2(j) && n == a0' * d + a1' && a1' < a2;
    if j == 0 {
      QuotientBelow(n, a0', d, a1');
    } else {
      MakeDividing(n, d, j - 1, c', a0', a1', a2 / 2, a3 / 2);
    }
  }

  lemma DividingIs(n: nat, d: nat, j: nat, c: nat, a0: nat, a1: nat, a2: nat, a3: nat)
    requires Dividing(n, d, j, c, a0, a1, a2, a3)
    ensures a2 == d * Pow2(j) && a3 == Pow2(j) && a1 < 2 * a2 && n == a0 * d + a1
    ensures a0 == c * Pow2(j + 1)
  {}

  lemma MakeDividing(n: nat, d: nat, j: nat, c: nat, a0: nat, a1: nat, a2: nat, a3: nat)
    requires a2 == d * Pow2(j) && a3 == Pow2(j) && a1 < 2 * a2
    requires a0 == c * Pow2(j + 1) && n == a0 * d + a1
    ensures Dividing(n, d, j, c, a0, a1, a2, a3)
  {}

  lemma SettleBit(n: nat, d: nat, j: nat, c: nat, a0: nat, a1: nat, a2: nat, a3: nat)
    requires Dividing(n, d, j, c, a0, a1, a2, a3)
    ensures a1 >= a2 ==> Or(a0, a3) == (2 * c + 1) * Pow2(j) && n == Or(a0, a3) * d + (a1 - a2)
    ensures a1 < a2 ==> a0 == (2 * c) * Pow2(j) && n == a0 * d + a1
  {
    var p := Pow2(j);
    OrDisjoint(c, p, j + 1);
    SkipStep(c, j);
    Distribute(2 * c, 1, p);
    OneTimes(p);
    Distribute(a0, p, d);
    Commute(p, d);
  }

  lemma SkipStep(c: nat, j: nat)
    ensures c * Pow2(j + 1) == (2 * c) * Pow2(j)
  {
    MulSwap2(c, Pow2(j));
  }

  lemma HalveStep(d: nat, j: nat)
    ensures j > 0 ==> (d * Pow2(j)) / 2 == d * Pow2(j - 1) && Pow2(j) / 2 == Pow2(j - 1) && d * Pow2(j) == 2 * (d * Pow2(j - 1))
    ensures j == 0 ==> Pow2(j) / 2 == 0 && d * Pow2(j) == d
  {
    if j > 0 { MulSwap2(d, Pow2(j - 1)); }
  }

  lemma ZeroDivisor(W: nat)
    requires W >= 1
    ensures Signed(Pow2(W) - 1, W) == -1
  {}

  // __divdi3: -1 for a zero divisor, the wrapped minimum on overflow, else truncated.
  method Divdi3(W: nat, a: nat, b: nat) returns (r: nat)
    requires W >= 1 && a < Pow2(W) && b < Pow2(W)
    ensures r < Pow2(W)
    ensures b == 0 ==> Signed(r, W) == -1
    ensures Overflows(a, b, W) ==> r == a
    ensures b != 0 && !Overflows(a, b, W) ==> Signed(b, W) != 0 && Signed(r, W) == TruncDiv(Signed(a, W), Signed(b, W))
  {
    hide TruncDiv, TruncRem, Pow2;
    var rem;
    SignedFacts(a, W);
    SignedFacts(b, W);
    ZeroDivisor(W);
    if Signed(a, W) < 0 {
      if Signed(b, W) > 0 {
        r, rem := Udivdi3(W, Neg(a, W), b);
        QuotientWord(W, a, b, r, rem);
        r := Neg(r, W);
      } else {
        r, rem := Udivdi3(W, Neg(a, W), Neg(b, W));
        if b != 0 { QuotientWord(W, a, b, r, rem); }
      }
    } else if Signed(b, W) < 0 {
      r, rem := Udivdi3(W, a, Neg(b, W));
      QuotientWord(W, a, b, r, rem);
      r := Neg(r, W);
    } else {
      r, rem := Udivdi3(W, a, b);
      if b != 0 { QuotientWord(W, a, b, r, rem); }
    }
  }

  // __moddi3: the dividend for a zero divisor, else the remainder of truncated division.
  method Moddi3(W: nat, a: nat, b: nat) returns (r: nat)
    requires W >= 1 && a < Pow2(W) && b < Pow2(W)
    ensures r < Pow2(W)
    ensures b == 0 ==> r == a
    ensures b != 0 ==> Signed(b, W) != 0 && Signed(r, W) == TruncRem(Signed(a, W), Signed(b, W))
  {
    hide TruncDiv, TruncRem, Pow2;
    var q;
    SignedFacts(a, W);
    SignedFacts(b, W);
    var divisor := if Signed(b, W) < 0 then Neg(b, W) else b;
    if Signed(a, W) >= 0 {
      q, r := Udivdi3(W, a, divisor);
      if b != 0 { RemainderWord(W, a, b, q, r); }
    } else {
      q, r := Udivdi3(W, Neg(a, W), divisor);
      if b != 0 { RemainderWord(W, a, b, q, r); }
      r := Neg(r, W);
    }
  }
}
