// Division and multiplication facts shared by the allocator and the word arithmetic.
module Arith {

  lemma MulLe(n: int, a: int, b: int)
    requires n >= 0 && a <= b
    ensures n * a <= n * b
  {}

  lemma MulNonNegative(x: nat, y: nat)
    ensures 0 <= x * y
  {}

  lemma MulLess(n: int, a: int, b: int)
    requires n >= 0 && a < b
    ensures n * a + n <= n * b
  {
    MulLe(n, a + 1, b);
  }

  // Quotient and remainder are determined by their defining equation.
  lemma DivUnique(x: int, n: int, q: int, r: int)
    requires n >= 1 && 0 <= r < n && x == n * q + r
    ensures x / n == q && x % n == r
  {
    var c := x / n;
    assert x == n * c + x % n;
    if c < q { MulLess(n, c, q); }
    if c > q { MulLess(n, q, c); }
  }

  lemma DivNonNegative(x: nat, n: int)
    requires n >= 1
    ensures x / n >= 0
  {
    var c := x / n;
    assert x == n * c + x % n;
    if c < 0 { MulLess(n, c, 0); }
  }

  lemma CeilDiv(a: int, n: int)
    requires 0 <= a && 1 <= n
    ensures var q := (a + n - 1) / n; a <= n * q < a + n && n * q == a + (n - a % n) % n
  {
    var c, r := a / n, a % n;
    assert a == n * c + r;
    if r == 0 {
      DivUnique(a + n - 1, n, c, n - 1);
      DivUnique(n, n, 1, 0);
    } else {
      assert n * (c + 1) == n * c + n;
      DivUnique(a + n - 1, n, c + 1, r - 1);
      DivUnique(n - r, n, 0, n - r);
    }
  }

  lemma FloorDiv(b: int, n: int, q: int)
    requires 1 <= n
    ensures q < b / n <==> n * q + n <= b
  {
    var m := b / n;
    assert b == n * m + b % n;
    if q < m { MulLess(n, q, m); }
    if q >= m { MulLe(n, m, q); }
  }

  // The comparison ceil(a / n) < floor(b / n) holds exactly when an n-aligned block
  // of length n lies in [a, b), and a + (n - a % n) % n is then the lowest one.
  lemma AlignedFit(a: int, b: int, n: int)
    requires 0 <= a <= b && 1 <= n
    ensures var k := a + (n - a % n) % n;
            && k % n == 0 && a <= k < a + n
            && ((a + n - 1) / n < b / n <==> k + n <= b)
  {
    CeilDiv(a, n);
    var q := (a + n - 1) / n;
    FloorDiv(b, n, q);
    DivUnique(n * q, n, q, 0);
  }

  lemma AlignedLeast(a: int, n: int, j: int)
    requires 0 <= a <= j && 1 <= n && j % n == 0
    ensures a + (n - a % n) % n <= j
  {
    CeilDiv(a, n);
    var q := (a + n - 1) / n;
    assert j == n * (j / n);
    if j / n < q { MulLess(n, j / n, q); }
    else { MulLe(n, q, j / n); }
  }

  // Any aligned block inside [a, b) makes the comparison succeed.
  lemma AlignedBlockDetected(a: int, b: int, n: int, x: int)
    requires 0 <= a <= x && 1 <= n && x + n <= b && x % n == 0
    ensures (a + n - 1) / n < b / n
  {
    AlignedFit(a, b, n);
    AlignedLeast(a, n, x);
  }

  function Pow2(k: nat): (r: nat)
    ensures r >= 1
    decreases k
  {
    if k == 0 then 1 else 2 * Pow2(k - 1)
  }

  ghost predicate IsPow2(x: int) {
    exists k: nat :: x == Pow2(k)
  }

  lemma {:induction false} Pow2Monotone(a: nat, b: nat)
    requires a <= b
    ensures Pow2(a) <= Pow2(b)
    ensures a < b ==> Pow2(a) < Pow2(b)
  {
    if a < b { Pow2Monotone(a, b - 1); }
  }

  lemma {:induction false} Pow2Add(a: nat, b: nat)
    ensures Pow2(a + b) == Pow2(a) * Pow2(b)
  {
    if a > 0 {
      Pow2Add(a - 1, b);
      assert Pow2(a + b) == 2 * Pow2(a - 1 + b);
      assert Pow2(a) * Pow2(b) == 2 * Pow2(a - 1) * Pow2(b);
    }
  }

  // Rounding up to a multiple of n, and the test that a block of n fits below b.
  lemma RoundUpTest(a: int, b: int, n: int)
    requires 0 <= a && 1 <= n
    ensures var r := ((a + n - 1) / n) * n;
            && a <= r < a + n && r % n == 0
            && ((a + n - 1) / n < b / n <==> r + n <= b)
  {
    CeilDiv(a, n);
    var q := (a + n - 1) / n;
    FloorDiv(b, n, q);
    assert n * q == q * n;
    DivUnique(q * n, n, q, 0);
  }

  lemma RoundUpLeast(a: int, n: int, x: int)
    requires 0 <= a <= x && 1 <= n && x % n == 0
    ensures ((a + n - 1) / n) * n <= x
  {
    CeilDiv(a, n);
    AlignedLeast(a, n, x);
  }

  lemma MulStrict(a: nat, x: nat, b: nat, y: nat)
    requires a <= x && b <= y
    ensures a * b <= x * y
  {
    MulLe(a, b, y);
    MulLe(y, a, x);
  }

  lemma OneTimes(d: nat)
    ensures 1 * d == d
  {}

  lemma SmallMod(x: nat, n: nat)
    requires x < n
    ensures x % n == x
  {
    DivUnique(x, n, 0, x);
  }

  lemma QuotientOf(n: nat, d: nat)
    requires d >= 1
    ensures n == (n / d) * d + n % d && 0 <= n % d < d && n / d >= 0
  {
    DivNonNegative(n, d);
  }

  lemma Distribute(x: int, y: int, z: int)
    ensures (x + y) * z == x * z + y * z
  {}

  lemma Swap(x: int, y: int, z: int)
    ensures (x * y) * z == (x * z) * y && (x * y) * z == x * (y * z)
  {}

  lemma Commute(x: int, y: int)
    ensures x * y == y * x
  {}
}
