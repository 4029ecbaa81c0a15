// Double-word multiplication and division in terms of half words, for a machine word of
// 2 * k bits: b = 2^k is the half-word base and b * b the word base.
module WordDiv {
  import opened Arith
  import opened Bits

  // The true numerator, rewritten with the digit estimate q = n / d1.
  lemma DigitEquation(n: nat, h: nat, d: nat, b: nat, d1: nat, d0: nat, q: nat, r: nat)
    requires d == d1 * b + d0 && n == q * d1 + r
    ensures n * b + h == q * d + (r * b + h) - q * d0
  {
    calc {
      n * b + h;
      (q * d1 + r) * b + h;
      q * d1 * b + r * b + h;
      { assert q * d1 * b == q * (d1 * b); }
      q * (d1 * b) + r * b + h;
      q * (d - d0) + r * b + h;
      q * d - q * d0 + r * b + h;
    }
  }

  // The estimate is at most two too large, so its product with the low half fits a word.
  lemma EstimateBound(n: nat, d: nat, b: nat, d1: nat, d0: nat, q: nat, r: nat)
    requires b >= 2 && d0 < b && b <= 2 * d1 && d == d1 * b + d0
    requires n < d && n == q * d1 + r
    ensures q <= b + 1 && q * d0 < b * b
  {
    if q >= b + 2 {
      MulLe(d1, b + 2, q);
    }
    MulStrict(q, b + 1, d0, b - 1);
    assert (b + 1) * (b - 1) == b * b - 1;
  }

  // Arithmetic on machine words below B.
  function Wrap(x: int, B: nat): (r: nat)
    requires B >= 1
    ensures r < B
  {
    x % B
  }

  // Adding two words wraps exactly when the result is below the second one.
  lemma AddWrap(r: nat, d: nat, B: nat)
    requires r < B && d < B
    ensures Wrap(r + d, B) == if r + d < B then r + d else r + d - B
    ensures Wrap(r + d, B) >= d <==> r + d < B
  {
    if r + d < B { DivUnique(r + d, B, 0, r + d); } else { DivUnique(r + d, B, 1, r + d - B); }
  }

  lemma SubWrap(r: nat, m: nat, B: nat)
    requires r < B && m < B
    ensures Wrap(r - m, B) == if r >= m then r - m else r - m + B
  {
    if r >= m { DivUnique(r - m, B, 0, r - m); } else { DivUnique(r - m, B, -1, r - m + B); }
  }

  // The corrections of a digit estimate: est was c too large, for some c of at most two.
  method Correct(est: nat, r0: nat, m: nat, d: nat, B: nat) returns (q: nat, r: nat)
    requires r0 < d < B && m < B && B <= 2 * d
    requires r0 < m ==> est >= 1
    requires r0 + d < m ==> est >= 2
    ensures r < d
    ensures (q == est && r == r0 - m) || (q == est - 1 && r == r0 + d - m) || (q == est - 2 && r == r0 + 2 * d - m)
  {
    hide Wrap;
    q, r := est, r0;
    if r < m {
      AddWrap(r, d, B);
      q := q - 1;
      r := Wrap(r + d, B);
      if r >= d {
        if r < m {
          AddWrap(r, d, B);
          q := q - 1;
          r := Wrap(r + d, B);
        }
      }
    }
    SubWrap(r, m, B);
    r := Wrap(r - m, B);
  }

  // One digit of the quotient: divides n * b + h by d, for d with its top bit set.
  method HalfDigit(k: nat, n: nat, h: nat, d: nat) returns (q: nat, r: nat)
    requires k >= 1
    requires var b := Pow2(k); b * b <= 2 * d && d < b * b && n < d && h < b
    ensures q * d + r == n * Pow2(k) + h && r < d && q < Pow2(k)
  {
    HighHalf(k, d);
    var d1, d0 := d / Pow2(k), d % Pow2(k);
    var r1, q1 := n % d1, n / d1;
    QuotientOf(n, d1);
    var m := Wrap(q1 * d0, Pow2(k) * Pow2(k));
    var r0 := Or(Wrap(r1 * Pow2(k), Pow2(k) * Pow2(k)), h);
    Estimated(k, n, h, d, d1, d0, q1, r1, m, r0);
    q, r := Correct(q1, r0, m, d, Pow2(k) * Pow2(k));
    Corrected(k, n, h, d, q1, r0, m, q, r);
  }

  // What the estimate step leaves for the corrections.
  lemma Estimated(k: nat, n: nat, h: nat, d: nat, d1: nat, d0: nat, q1: nat, r1: nat, m: nat, r0: nat)
    requires var b := Pow2(k);
             && b >= 2 && d == d1 * b + d0 && d0 < b && d1 < b && b <= 2 * d1
             && n < d && h < b && n == q1 * d1 + r1 && r1 < d1
             && m == Wrap(q1 * d0, b * b) && r0 == Or(Wrap(r1 * b, b * b), h)
    ensures r0 < d && m < Pow2(k) * Pow2(k)
    ensures n * Pow2(k) + h == q1 * d + r0 - m
    ensures r0 < m ==> q1 >= 1
    ensures r0 + d < m ==> q1 >= 2
  {
    hide Pow2, Or, Wrap;
    EstimatedWords(k, n, h, d, d1, d0, q1, r1, m, r0);
    DigitEquation(n, h, d, Pow2(k), d1, d0, q1, r1);
    EstimatePositive(q1, d, r0, m, n * Pow2(k) + h);
  }

  lemma EstimatedWords(k: nat, n: nat, h: nat, d: nat, d1: nat, d0: nat, q1: nat, r1: nat, m: nat, r0: nat)
    requires var b := Pow2(k);
             && b >= 2 && d == d1 * b + d0 && d0 < b && d1 < b && b <= 2 * d1
             && n < d && h < b && n == q1 * d1 + r1 && r1 < d1
             && m == Wrap(q1 * d0, b * b) && r0 == Or(Wrap(r1 * b, b * b), h)
    ensures m == q1 * d0 && m < Pow2(k) * Pow2(k) && r0 == r1 * Pow2(k) + h && r0 < d
  {
    hide Pow2, Or, Wrap;
    EstimateBound(n, d, Pow2(k), d1, d0, q1, r1);
    MulNonNegative(q1, d0);
    MulNonNegative(Pow2(k), Pow2(k));
    WrapOf(q1 * d0, Pow2(k) * Pow2(k), q1 * d0, 0);
    RemBound(k, r1, h, d, d1, d0);
  }

  lemma EstimatePositive(q: nat, d: nat, r0: nat, m: nat, x: nat)
    requires x == q * d + r0 - m
    ensures r0 < m ==> q >= 1
    ensures r0 + d < m ==> q >= 2
  {
    if q == 1 { OneTimes(d); }
  }

  lemma Corrected(k: nat, n: nat, h: nat, d: nat, q1: nat, r0: nat, m: nat, q: nat, r: nat)
    requires n * Pow2(k) + h == q1 * d + r0 - m && n < d && h < Pow2(k)
    requires (q == q1 && r == r0 - m) || (q == q1 - 1 && r == r0 + d - m) || (q == q1 - 2 && r == r0 + 2 * d - m)
    ensures q * d + r == n * Pow2(k) + h && q < Pow2(k)
  {
    MulMinus(q1, q, d);
    QuotientSmall(q, d, r, n, h, Pow2(k));
  }

  lemma MulMinus(a: nat, q: nat, d: nat)
    requires a - 2 <= q <= a
    ensures q * d == a * d - (if q == a then 0 else if q == a - 1 then d else 2 * d)
  {}

  lemma HighHalf(k: nat, d: nat)
    requires k >= 1 && Pow2(k) * Pow2(k) <= 2 * d && d < Pow2(k) * Pow2(k)
    ensures var b := Pow2(k); var d1 := d / b;
            b >= 2 && d == d1 * b + d % b && 1 <= d1 < b && b <= 2 * d1 && 0 <= d % b < b
  {
    hide Pow2;
    PowHalf(k);
    HalfBase(Pow2(k), Pow2(k - 1), d);
  }

  lemma PowHalf(k: nat)
    requires k >= 1
    ensures Pow2(k) == 2 * Pow2(k - 1)
  {}

  lemma HalfBase(b: nat, half: nat, d: nat)
    requires half >= 1 && b == 2 * half && b * b <= 2 * d && d < b * b
    ensures var d1 := d / b;
            b >= 2 && d == d1 * b + d % b && 1 <= d1 < b && b <= 2 * d1 && 0 <= d % b < b
  {
    Halves(d, b);
    if d / b < half {
      MulLess(b, d / b, half);
      HalfSquare(b, half);
      Commute(b, d / b);
    }
  }

  lemma HalfSquare(b: nat, half: nat)
    requires b == 2 * half
    ensures 2 * (b * half) == b * b
  {}

  lemma RemBound(k: nat, rem: nat, h: nat, d: nat, d1: nat, d0: nat)
    requires var b := Pow2(k); rem < d1 < b && h < b && d == d1 * b + d0
    ensures var b := Pow2(k); b >= 1 && Or(Wrap(rem * b, b * b), h) == rem * b + h && rem * b + h < d
  {
    var b := Pow2(k);
    OrDisjoint(rem, h, k);
    RemProducts(b, rem, d1);
    SmallMod(rem * b, b * b);
  }

  lemma RemProducts(b: nat, rem: nat, d1: nat)
    requires rem < d1 < b
    ensures rem * b + b <= d1 * b && rem * b < b * b
  {
    MulLess(b, rem, d1);
    MulLess(b, d1, b);
  }

  lemma QuotientSmall(q: nat, d: nat, r: nat, n: nat, h: nat, b: nat)
    requires q * d + r == n * b + h && n < d && h < b
    ensures q < b
  {
    if q >= b {
      MulLe(d, b, q);
      MulLess(b, n, d);
    }
  }

  // __udiv_qrnnd_c: two words by one, for a divisor with its top bit set.
  method UdivQrnndC(k: nat, n1: nat, n0: nat, d: nat) returns (q: nat, r: nat)
    requires k >= 1
    requires var b := Pow2(k); b * b <= 2 * d && d < b * b && n1 < d && n0 < b * b
    ensures q * d + r == n1 * (Pow2(k) * Pow2(k)) + n0 && r < d && q < Pow2(k) * Pow2(k)
  {
    Halves(n0, Pow2(k));
    var q1, r1 := HalfDigit(k, n1, n0 / Pow2(k), d);
    var q0, r0 := HalfDigit(k, r1, n0 % Pow2(k), d);
    q, r := Or(Wrap(q1 * Pow2(k), Pow2(k) * Pow2(k)), q0), r0;
    JoinDigits(k, n1, n0, d, q1, r1, q0, r0);
  }

  lemma Halves(x: nat, b: nat)
    requires b >= 1 && x < b * b
    ensures x == (x / b) * b + x % b && 0 <= x / b < b && 0 <= x % b < b
  {
    QuotientOf(x, b);
    if x / b >= b { MulLe(b, b, x / b); }
  }

  lemma JoinDigits(k: nat, n1: nat, n0: nat, d: nat, q1: nat, r1: nat, q0: nat, r0: nat)
    requires var b := Pow2(k);
             && q1 < b && q0 < b && n0 == (n0 / b) * b + n0 % b && n0 / b >= 0
             && q1 * d + r1 == n1 * b + n0 / b && q0 * d + r0 == r1 * b + n0 % b
    ensures var b := Pow2(k); var q := Or(Wrap(q1 * b, b * b), q0);
            q * d + r0 == n1 * (b * b) + n0 && q < b * b
  {
    hide Pow2, Or;
    var b := Pow2(k);
    OrDisjoint(q1, q0, k);
    MulLess(b, q1, b);
    SmallMod(q1 * b, b * b);
    JoinProducts(b, n1, n0 / b, n0 % b, d, q1, r1, q0, r0);
  }

  lemma JoinProducts(b: nat, n1: nat, h: nat, l: nat, d: nat, q1: nat, r1: nat, q0: nat, r0: nat)
    requires q1 * d + r1 == n1 * b + h && q0 * d + r0 == r1 * b + l
    ensures (q1 * b + q0) * d + r0 == n1 * (b * b) + (h * b + l)
  {
    calc {
      (q1 * b + q0) * d + r0;
      { Distribute(q1 * b, q0, d); }
      (q1 * b) * d + q0 * d + r0;
      { Swap(q1, b, d); }
      (q1 * d) * b + r1 * b + l;
      { Distribute(q1 * d, r1, b); }
      (q1 * d + r1) * b + l;
      (n1 * b + h) * b + l;
      { Distribute(n1 * b, h, b); Swap(n1, b, b); }
      n1 * (b * b) + (h * b + l);
    }
  }

  // __muldi3: shift and add, the low word of a product for a machine without multiply.
  method Muldi3(width: nat, a: nat, b: nat) returns (p: nat)
    requires width >= 1 && a < Pow2(width) && b < Pow2(width)
    ensures p == Wrap(a * b, Pow2(width))
  {
    hide Wrap, And;
    var x: nat, y: nat := a, b;
    p := 0;
    ghost var t: int := 0;
    WrapOf(a * b, Pow2(width), 0, t);
    while true
      invariant p < Pow2(width) && y < Pow2(width)
      invariant a * b == p + x * y + t * Pow2(width)
      decreases y
    {
      ghost var x0, y0, p0 := x, y, p;
      AndBit(y, 0);
      LowBit(y);
      if And(y, 1) != 0 {
        p := Wrap(p + x, Pow2(width));
      }
      y := y / 2;
      x := Wrap(2 * x, Pow2(width));
      t := MulStep(a * b, x0, y0, p0, p, x, t, Pow2(width));
      if y == 0 { break; }
    }
    WrapOf(a * b, Pow2(width), p, t);
  }

  lemma LowBit(y: nat)
    ensures And(y, 1) == y % 2
  {
    AndLowMask(y, 1);
    assert Pow2(1) == 2;
  }

  lemma WrapOf(x: int, B: nat, p: nat, t: int)
    requires B >= 1
    ensures x == p + t * B && p < B ==> Wrap(x, B) == p
  {
    if x == p + t * B && p < B { DivUnique(x, B, t, p); }
  }

  // Removing a multiple of the base.
  lemma WrapMultiple(x: int, B: nat) returns (t: int)
    requires B >= 1
    ensures x == Wrap(x, B) + t * B
  {
    t := x / B;
  }

  lemma MulStep(prod: int, x0: nat, y0: nat, p0: nat, p: nat, x: nat, t0: int, B: nat) returns (t: int)
    requires B >= 1 && prod == p0 + x0 * y0 + t0 * B
    requires p == (if y0 % 2 == 1 then Wrap(p0 + x0, B) else p0) && x == Wrap(2 * x0, B)
    ensures prod == p + x * (y0 / 2) + t * B
  {
    hide Wrap;
    var h := y0 / 2;
    var t1 := WrapMultiple(p0 + x0, B);
    var t2 := WrapMultiple(2 * x0, B);
    var u := if y0 % 2 == 1 then t1 else 0;
    t := t0 + u + t2 * h;
    calc {
      p0 + x0 * y0 + t0 * B;
      { assert y0 == 2 * h + y0 % 2; HalfProduct(x0, h, y0 % 2); }
      p0 + (if y0 % 2 == 1 then x0 else 0) + (2 * x0) * h + t0 * B;
      p + u * B + (x + t2 * B) * h + t0 * B;
      { Distribute(x, t2 * B, h); Swap(t2, B, h); }
      p + u * B + x * h + (t2 * h) * B + t0 * B;
      { Distribute(t0 + u, t2 * h, B); Distribute(t0, u, B); }
      p + x * h + t * B;
    }
  }

  lemma HalfProduct(x: nat, h: nat, bit: nat)
    requires bit == 0 || bit == 1
    ensures x * (2 * h + bit) == (if bit == 1 then x else 0) + (2 * x) * h
  {}

  // umul_ppmm: the full product of two words from four half-word products.
  method UmulPpmm(k: nat, u: nat, v: nat) returns (w1: nat, w0: nat)
    requires k >= 1 && u < Pow2(k) * Pow2(k) && v < Pow2(k) * Pow2(k)
    ensures w1 * (Pow2(k) * Pow2(k)) + w0 == u * v
    ensures w1 < Pow2(k) * Pow2(k) && w0 < Pow2(k) * Pow2(k)
  {
    hide Wrap;
    ghost var b := Pow2(k);
    Halves(u, b);
    Halves(v, b);
    var ul, uh := u % Pow2(k), u / Pow2(k);
    var vl, vh := v % Pow2(k), v / Pow2(k);
    Pow2Square(k);
    HalfWords(k, ul, vl);
    HalfWords(k, uh, vh);
    var x0 := Muldi3(2 * k, ul, vl);
    var x1 := Muldi3(2 * k, ul, vh);
    var x2 := Muldi3(2 * k, uh, vl);
    var x3 := Muldi3(2 * k, uh, vh);
    HalfProducts(b, ul, vl);
    HalfProducts(b, ul, vh);
    HalfProducts(b, uh, vl);
    HalfProducts(b, uh, vh);
    Halves(x0, b);
    ghost var y1 := x1 + x0 / Pow2(k);
    WrapOf(y1, b * b, y1, 0);
    x1 := Wrap(x1 + x0 / Pow2(k), Pow2(k) * Pow2(k));
    AddWrap(x1, x2, b * b);
    x1 := Wrap(x1 + x2, Pow2(k) * Pow2(k));
    ghost var c := if x1 < x2 then 1 else 0;
    ghost var y3 := x3;
    if x1 < x2 { x3 := Wrap(x3 + Pow2(k), Pow2(k) * Pow2(k)); }
    Halves(x1, b);
    w1 := Wrap(x3 + x1 / Pow2(k), Pow2(k) * Pow2(k));
    w0 := Wrap((x1 % Pow2(k)) * Pow2(k) + x0 % Pow2(k), Pow2(k) * Pow2(k));
    FullProduct(b, u, v, ul, uh, vl, vh, x0, y1, x2, y3, c, x1, x3, w1, w0);
  }

  lemma Pow2Square(k: nat)
    ensures Pow2(2 * k) == Pow2(k) * Pow2(k) && Pow2(k) <= Pow2(2 * k)
  {
    hide Pow2;
    Pow2Add(k, k);
    MulLe(Pow2(k), 1, Pow2(k));
  }

  lemma HalfWords(k: nat, x: nat, y: nat)
    requires x < Pow2(k) && y < Pow2(k)
    ensures x < Pow2(2 * k) && y < Pow2(2 * k)
  {
    Pow2Square(k);
  }

  // Half-word products leave room for another half word.
  lemma HalfProducts(b: nat, x: nat, y: nat)
    requires x < b && y < b
    ensures x * y + 2 * (b - 1) < b * b && Wrap(x * y, b * b) == x * y
  {
    MulStrict(x, b - 1, y, b - 1);
    assert (b - 1) * (b - 1) + 2 * (b - 1) == b * b - 1;
    SmallMod(x * y, b * b);
  }

  // The four products with their carries add up to the product of the words.
  lemma FullProduct(b: nat, u: nat, v: nat, ul: nat, uh: nat, vl: nat, vh: nat,
                    x0: nat, y1: nat, x2: nat, y3: nat, c: nat, x1: nat, x3: nat, w1: nat, w0: nat)
    requires b >= 1 && u == uh * b + ul && v == vh * b + vl && u < b * b && v < b * b
    requires x0 == ul * vl && y1 == ul * vh + x0 / b && x2 == uh * vl && y3 == uh * vh
    requires x0 == (x0 / b) * b + x0 % b && 0 <= x0 % b < b
    requires y1 + x2 == x1 + c * (b * b) && c <= 1 && y3 < b * b
    requires x3 == if c == 1 then Wrap(y3 + b, b * b) else y3
    requires x1 == (x1 / b) * b + x1 % b && 0 <= x1 % b < b && 0 <= x1 / b
    requires w1 == Wrap(x3 + x1 / b, b * b) && w0 == Wrap((x1 % b) * b + x0 % b, b * b)
    ensures w1 * (b * b) + w0 == u * v
  {
    hide Wrap;
    var B := b * b;
    var lo := (x1 % b) * b + x0 % b;
    LowWord(b, x1 % b, x0 % b);
    var hi := y3 + c * b + x1 / b;
    SumOfProducts(b, uh, ul, vh, vl, x0 / b, x0 % b, c, x1 / b, x1 % b);
    assert u * v == hi * B + lo;
    HighWord(B, u, v, hi, lo);
    if c == 1 { WrapOf(y3 + b, B, y3 + b, 0); }
    WrapOf(x3 + x1 / b, B, hi, 0);
    WrapOf(lo, B, lo, 0);
  }

  lemma LowWord(b: nat, x: nat, y: nat)
    requires x < b && y < b
    ensures x * b + y < b * b
  {
    MulLess(b, x, b);
  }

  lemma HighWord(B: nat, u: nat, v: nat, hi: nat, lo: nat)
    requires u < B && v < B && u * v == hi * B + lo
    ensures hi < B
  {
    if hi >= B {
      MulLe(B, B, hi);
      MulStrict(u, B - 1, v, B - 1);
    }
  }

  lemma SumOfProducts(b: nat, uh: nat, ul: nat, vh: nat, vl: nat, p: nat, r: nat, c: nat, s: nat, t: nat)
    requires ul * vl == p * b + r
    requires ul * vh + p + uh * vl == (s * b + t) + c * (b * b)
    ensures (uh * b + ul) * (vh * b + vl) == (uh * vh + c * b + s) * (b * b) + (t * b + r)
  {
    var m := ul * vh + uh * vl;
    calc {
      (uh * b + ul) * (vh * b + vl);
      { Distribute(uh * b, ul, vh * b + vl); }
      (uh * b) * (vh * b + vl) + ul * (vh * b + vl);
      { Swap(uh, b, vh * b + vl); }
      (uh * (vh * b + vl)) * b + ul * (vh * b + vl);
      { DotTwo(uh, vh, vl, b); DotTwo(ul, vh, vl, b); }
      ((uh * vh) * b + uh * vl) * b + (ul * vh) * b + ul * vl;
      { Distribute((uh * vh) * b, uh * vl, b); Swap(uh * vh, b, b); Distribute(uh * vl, ul * vh, b); }
      (uh * vh) * (b * b) + m * b + p * b + r;
      { Distribute(m, p, b); }
      (uh * vh) * (b * b) + (m + p) * b + r;
      (uh * vh) * (b * b) + ((s * b + t) + c * (b * b)) * b + r;
      { Distribute(s * b + t, c * (b * b), b); Distribute(s * b, t, b); Swap(s, b, b); Swap(c, b * b, b); }
      (uh * vh) * (b * b) + s * (b * b) + t * b + (c * b) * (b * b) + r;
      { Distribute(uh * vh, c * b, b * b); Distribute(uh * vh + c * b, s, b * b); }
      (uh * vh + c * b + s) * (b * b) + (t * b + r);
    }
  }

  lemma DotTwo(x: int, h: int, l: int, b: int)
    ensures x * (h * b + l) == (x * h) * b + x * l
  {}
}
