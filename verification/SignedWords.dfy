// Two's complement words of W bits and division truncating toward zero, as section 6.5.5 of
// ISO/IEC 9899:2011 and section 7.2 of the RISC-V Unprivileged ISA manual require.
module SignedWords {
  import opened Arith
  import opened Bits
  import opened WordDiv

  // The word read as a two's complement number.
  function Signed(x: nat, W: nat): int
    requires W >= 1
  {
    if x >= Pow2(W - 1) then x - Pow2(W) else x
  }

  function Neg(x: nat, W: nat): (r: nat)
    requires x < Pow2(W)
    ensures r < Pow2(W)
  {
    if x == 0 then 0 else Pow2(W) - x
  }

  function Abs(x: int): nat { if x < 0 then -x else x }

  // Division truncating toward zero, as C and the RISC-V manual define it.
  function TruncDiv(a: int, b: int): int
    requires b != 0
  {
    var q := Abs(a) / Abs(b);
    if (a < 0) == (b < 0) then q else -q
  }

  // The remainder has the dividend's sign.
  function TruncRem(a: int, b: int): int
    requires b != 0
  {
    var r := Abs(a) % Abs(b);
    if a < 0 then -r else r
  }

  // The law that ties the two together, with the remainder smaller than the divisor.
  lemma TruncLaw(a: int, b: int)
    requires b != 0
    ensures TruncDiv(a, b) * b + TruncRem(a, b) == a
    ensures Abs(TruncRem(a, b)) < Abs(b)
    ensures TruncRem(a, b) == 0 || (TruncRem(a, b) < 0 <==> a < 0)
  {
    var q, r := Abs(a) / Abs(b), Abs(a) % Abs(b);
    QuotientOf(Abs(a), Abs(b));
    SignedProducts(b, q);
    Commute(q, b);
    Commute(-q, b);
    Commute(q, Abs(b));
  }

  // Truncated division read off the magnitudes.
  lemma TruncOf(a: int, b: int, q: int, r: int)
    requires b != 0 && q >= 0 && 0 <= r < Abs(b) && Abs(a) == q * Abs(b) + r
    ensures TruncDiv(a, b) == if (a < 0) == (b < 0) then q else -q
    ensures TruncRem(a, b) == if a < 0 then -r else r
  {
    Commute(q, Abs(b));
    DivUnique(Abs(a), Abs(b), q, r);
  }

  lemma SignedProducts(b: int, q: int)
    ensures b * -q == -(b * q) && (b < 0 ==> Abs(b) * q == -(b * q))
  {}

  // The magnitude and the sign of a word.
  lemma SignedFacts(x: nat, W: nat)
    requires W >= 1 && x < Pow2(W)
    ensures Pow2(W) == 2 * Pow2(W - 1)
    ensures Signed(x, W) == if x < Pow2(W - 1) then x else x - Pow2(W)
    ensures Signed(x, W) < 0 ==> Neg(x, W) == Abs(Signed(x, W)) <= Pow2(W - 1)
    ensures Signed(x, W) >= 0 ==> x == Abs(Signed(x, W)) < Pow2(W - 1)
    ensures x <= Pow2(W - 1) ==> Signed(Neg(x, W), W) == 0 - x
  {}

  lemma QuotientBelow(n: nat, q: nat, d: nat, r: nat)
    requires d > 0 && n == q * d + r
    ensures q <= n
    ensures d >= 2 ==> 2 * q <= n
  {
    MulLe(q, 1, d);
    if d >= 2 { MulLe(q, 2, d); }
  }

  ghost predicate Overflows(a: nat, b: nat, W: nat)
    requires W >= 1
  {
    Signed(a, W) == 0 - Pow2(W - 1) && Signed(b, W) == -1
  }

  // The quotient of the magnitudes with the sign of the true quotient.
  lemma QuotientWord(W: nat, a: nat, b: nat, q: nat, r: nat)
    requires W >= 1 && a < Pow2(W) && b < Pow2(W) && b != 0
    requires var sa, sb := Signed(a, W), Signed(b, W);
             sb != 0 && Abs(sa) == q * Abs(sb) + r && r < Abs(sb)
    ensures q <= Pow2(W - 1) && q < Pow2(W)
    ensures var sa, sb := Signed(a, W), Signed(b, W);
            && ((sa < 0) != (sb < 0) ==> Signed(Neg(q, W), W) == TruncDiv(sa, sb))
            && ((sa < 0) == (sb < 0) && !Overflows(a, b, W) ==> Signed(q, W) == TruncDiv(sa, sb))
            && (Overflows(a, b, W) ==> q == a)
  {
    hide TruncDiv, TruncRem, Pow2;
    var sa, sb := Signed(a, W), Signed(b, W);
    SignedFacts(a, W);
    SignedFacts(b, W);
    TruncOf(sa, sb, q, r);
    QuotientBelow(Abs(sa), q, Abs(sb), r);
    SignedFacts(q, W);
    if Abs(sb) == 1 { OneTimes(q); Commute(q, 1); }
  }

  lemma RemainderWord(W: nat, a: nat, b: nat, q: nat, r: nat)
    requires W >= 1 && a < Pow2(W) && b < Pow2(W) && b != 0
    requires var sa, sb := Signed(a, W), Signed(b, W);
             sb != 0 && Abs(sa) == q * Abs(sb) + r && r < Abs(sb)
    ensures r < Pow2(W)
    ensures var sa, sb := Signed(a, W), Signed(b, W);
            TruncRem(sa, sb) == if sa < 0 then Signed(Neg(r, W), W) else Signed(r, W)
  {
    hide TruncDiv, TruncRem, Pow2;
    var sa, sb := Signed(a, W), Signed(b, W);
    SignedFacts(a, W);
    SignedFacts(b, W);
    TruncOf(sa, sb, q, r);
    SignedFacts(r, W);
  }
}
