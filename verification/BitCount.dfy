// Counting leading and trailing zero bits by binary search with masks.
module BitCount {
  import opened Arith
  import opened Bits
  import opened WordDiv

  const W32: nat := 0x1_0000_0000

  // The number of significant bits.
  function BitLen(x: nat): nat {
    if x == 0 then 0 else 1 + BitLen(x / 2)
  }

  // Leading zero bits of a 32-bit word.
  function Clz(x: nat): int { 32 - BitLen(x) }

  // Trailing zero bits.
  function Ctz(x: nat): nat
    requires x > 0
  {
    if x % 2 == 1 then 0 else 1 + Ctz(x / 2)
  }

  lemma {:induction false} BitLenBounds(x: nat)
    requires x > 0
    ensures BitLen(x) >= 1 && Pow2(BitLen(x) - 1) <= x < Pow2(BitLen(x))
  {
    if x / 2 == 0 {
      assert x == 1;
    } else {
      BitLenBounds(x / 2);
    }
  }

  lemma {:induction false} BitLenShift(x: nat, s: nat)
    requires x >= Pow2(s)
    ensures Shr(x, s) > 0 && BitLen(x) == BitLen(Shr(x, s)) + s
  {
    if s == 0 {
      assert Shr(x, 0) == x;
    } else {
      ShrStep(x, s);
      BitLenShift(x / 2, s - 1);
    }
  }

  // x is its odd part times a power of two.
  lemma {:induction false} CtzFactor(x: nat)
    requires x > 0
    ensures var c := Ctz(x); x == (Shr(x, c)) * Pow2(c) && Shr(x, c) % 2 == 1
  {
    hide Shr;
    if x % 2 == 1 {
      ShrZero(x);
    } else {
      CtzFactor(x / 2);
      ShrStep(x, Ctz(x));
      MulSwap2(Shr(x, Ctz(x)), Pow2(Ctz(x / 2)));
    }
  }

  lemma ShrZero(x: nat)
    ensures Shr(x, 0) == x && x * Pow2(0) == x
  {}

  lemma {:induction false} CtzShift(x: nat, s: nat)
    requires x > 0 && x % Pow2(s) == 0
    ensures Shr(x, s) > 0 && Ctz(x) == s + Ctz(Shr(x, s))
  {
    if s == 0 {
      assert Shr(x, 0) == x;
    } else {
      HalfDiv(x, Pow2(s - 1));
      ShrStep(x, s);
      CtzShift(x / 2, s - 1);
    }
  }

  lemma ShrSmall(x: nat, h: nat)
    requires x < Pow2(2 * h)
    ensures Shr(x, h) < Pow2(h)
    ensures Shr(x, h) == 0 <==> x < Pow2(h)
  {
    Pow2Square(h);
    QuotientSquare(x, Pow2(h));
  }

  lemma QuotientSquare(x: nat, p: nat)
    requires p >= 1 && x < p * p
    ensures 0 <= x / p < p && (x / p == 0 <==> x < p)
  {
    Halves(x, p);
    if x < p { SmallDiv(x, p); }
    if x / p == 0 { assert (x / p) * p == 0; }
  }

  lemma SmallDiv(x: nat, p: nat)
    requires x < p
    ensures x / p == 0
  {
    DivUnique(x, p, 0, x);
  }

  // One halving of the search for the leading bit.
  method ClzStep(x: nat, h: nat) returns (y: nat, t: nat)
    requires 1 <= h && 0 < x < Pow2(2 * h)
    ensures 0 < y < Pow2(h)
    ensures 2 * h - BitLen(x) == t + h - BitLen(y)
  {
    hide And, BitLen;
    AndField(x, h, h);
    ShrSmall(x, h);
    FieldZero(Shr(x, h), Pow2(h));
    t := if And(x, (Pow2(h) - 1) * Pow2(h)) == 0 then h else 0;
    ShrZero(x);
    if x >= Pow2(h) { BitLenShift(x, h); }
    y := Shr(x, h - t);
  }

  lemma FieldZero(q: nat, n: nat)
    requires n >= 1 && q < n
    ensures (q % n) * n == 0 <==> q == 0
  {
    SmallMod(q, n);
    if q >= 1 { MulLe(n, 1, q); }
  }

  // __clzsi2: the masks are 0xFFFF0000, 0xFF00, 0xF0 and 0xC.
  method Clzsi2(a: nat) returns (r: nat)
    requires 0 < a < W32
    ensures r == Clz(a) && r < 32
  {
    hide And, BitLen, Pow2;
    SmallPowers();
    var x: nat, t: nat := a, 0;
    x, t := ClzStep(x, 16);
    r := t;
    x, t := ClzStep(x, 8);
    r := r + t;
    x, t := ClzStep(x, 4);
    r := r + t;
    x, t := ClzStep(x, 2);
    r := r + t;
    assert x == 1 || x == 2 || x == 3;
    SmallBits(x);
    LastBits(x, Wrap(2 - x, W32));
    r := r + And(Wrap(2 - x, W32), if And(x, 2) == 0 then W32 - 1 else 0);
    BitLenBounds(a);
  }

  lemma SmallPowers()
    ensures Pow2(1) == 2 && Pow2(2) == 4 && Pow2(4) == 16 && Pow2(8) == 256 && Pow2(16) == 65536 && Pow2(32) == W32
    ensures Pow2(31) == 0x8000_0000
  {
    assert Pow2(4) == 16;
    Pow2Add(4, 4);
    Pow2Add(8, 8);
    Pow2Add(16, 16);
  }

  lemma SmallBits(x: nat)
    requires 1 <= x <= 3
    ensures And(x, 2) == (if x == 1 then 0 else 2)
    ensures And(x, 1) == x % 2
    ensures BitLen(x) == if x == 1 then 1 else 2
  {
    LowBit(x);
  }

  // Masking with all ones or with nothing.
  lemma LastBits(x: nat, y: nat)
    requires y < W32
    ensures And(y, W32 - 1) == y && And(y, 0) == 0
  {
    SmallPowers();
    AndLowMask(y, 32);
    SmallMod(y, W32);
  }

  // One halving of the search for the trailing bit.
  method CtzStep(x: nat, h: nat) returns (y: nat, t: nat)
    requires 1 <= h && x % Pow2(2 * h) != 0
    ensures y % Pow2(h) != 0
    ensures x > 0 && y > 0 && Ctz(x) == t + Ctz(y)
  {
    hide And, Ctz;
    AndLowMask(x, h);
    t := if And(x, Pow2(h) - 1) == 0 then h else 0;
    ShrZero(x);
    HighPart(x, h);
    if x % Pow2(h) == 0 { CtzShift(x, h); }
    y := Shr(x, t);
  }

  lemma HighPart(x: nat, h: nat)
    requires x % Pow2(2 * h) != 0
    ensures x > 0
    ensures x % Pow2(h) == 0 ==> Shr(x, h) % Pow2(h) != 0
  {
    Pow2Square(h);
    if x == 0 { SmallMod(0, Pow2(2 * h)); }
    ModSquare(x, Pow2(h));
  }

  lemma ModSquare(x: nat, p: nat)
    requires p >= 1
    ensures x % p == 0 && (x / p) % p == 0 ==> x % (p * p) == 0
  {
    if x % p == 0 && (x / p) % p == 0 {
      var q := x / p;
      assert x == p * q && q == p * (q / p);
      SquareMultiple(p, q / p);
    }
  }

  lemma SquareMultiple(p: nat, c: int)
    requires p >= 1
    ensures (p * (p * c)) % (p * p) == 0
  {
    Swap(p, p, c);
    DivUnique((p * p) * c, p * p, c, 0);
  }

  // __ctzsi2: the masks are 0xFFFF, 0xFF, 0xF and 0x3.
  method Ctzsi2(a: nat) returns (r: nat)
    requires 0 < a < W32
    ensures r == Ctz(a) && r < 32
  {
    hide And, Ctz, Pow2;
    SmallPowers();
    SmallMod(a, W32);
    var x: nat, t: nat := a, 0;
    x, t := CtzStep(x, 16);
    r := t;
    x, t := CtzStep(x, 8);
    r := r + t;
    x, t := CtzStep(x, 4);
    r := r + t;
    x, t := CtzStep(x, 2);
    r := r + t;
    ghost var y := x;
    AndLowMask(x, 2);
    x := And(x, 3);
    assert x == y % 4 && x != 0;
    FourMod(y);
    LastTrailing(y);
    SmallBits(x);
    LastBits(x, Wrap(2 - x / 2, W32));
    r := r + And(Wrap(2 - x / 2, W32), if And(x, 1) == 0 then W32 - 1 else 0);
    CtzBelow(a);
  }

  lemma FourMod(y: nat)
    ensures (y % 4) % 2 == y % 2
  {
    var q, r := y / 4, y % 4;
    DivUnique(y, 2, 2 * q + r / 2, r % 2);
  }

  lemma LastTrailing(y: nat)
    requires y % 4 != 0
    ensures y > 0 && Ctz(y) == if y % 2 == 1 then 0 else 1
  {
    if y % 2 == 0 { HalfOdd(y); }
  }

  lemma HalfOdd(y: nat)
    requires y % 4 != 0 && y % 2 == 0
    ensures y > 0 && y / 2 > 0 && (y / 2) % 2 == 1
  {
    var q, r := y / 4, y % 4;
    assert y == 4 * q + r;
    DivUnique(y, 2, 2 * q + r / 2, 0);
    DivUnique(2 * q + 1, 2, q, 1);
  }

  lemma CtzBelow(a: nat)
    requires 0 < a < W32
    ensures Ctz(a) < 32
  {
    SmallPowers();
    CtzFactor(a);
    var c, q := Ctz(a), Shr(a, Ctz(a));
    MulLe(Pow2(c), 1, q);
    if c >= 32 { Pow2Monotone(32, c); }
  }

  lemma JoinBitLen(high: nat, low: nat)
    requires high > 0 && low < W32
    ensures BitLen(high * W32 + low) == 32 + BitLen(high)
  {
    var x := high * W32 + low;
    SmallPowers();
    DivUnique(x, W32, high, low);
    BitLenShift(x, 32);
  }

  // __clzdi2: the leading zeros of a 64-bit word from those of one half.
  method Clzdi2(high: nat, low: nat) returns (r: nat)
    requires high < W32 && low < W32 && (high > 0 || low > 0)
    ensures r == 64 - BitLen(high * W32 + low)
  {
    hide And, BitLen;
    var f := if high == 0 then W32 - 1 else 0;
    LastBits(0, high);
    LastBits(0, low);
    AndThirtyTwo();
    AndZero(high);
    var c := Clzsi2(Or(And(high, W32 - 1 - f), And(low, f)));
    r := c + And(f, 32);
    if high > 0 { JoinBitLen(high, low); }
  }

  // __ctzdi2, likewise from the low half unless it is zero.
  method Ctzdi2(high: nat, low: nat) returns (r: nat)
    requires high < W32 && low < W32 && (high > 0 || low > 0)
    ensures high * W32 + low > 0 && r == Ctz(high * W32 + low)
  {
    hide And, Ctz;
    var f := if low == 0 then W32 - 1 else 0;
    LastBits(0, high);
    LastBits(0, low);
    AndThirtyTwo();
    AndZero(low);
    var c := Ctzsi2(Or(And(high, f), And(low, W32 - 1 - f)));
    r := c + And(f, 32);
    JoinCtz(high, low);
  }

  lemma AndThirtyTwo()
    ensures And(W32 - 1, 32) == 32 && And(0, 32) == 0
  {
    SmallPowers();
    AndBit(W32 - 1, 5);
    assert Pow2(5) == 32;
  }

  lemma AndZero(x: nat)
    ensures And(x, 0) == 0 && Or(x, 0) == x && Or(0, x) == x
  {}

  lemma JoinCtz(high: nat, low: nat)
    requires high < W32 && low < W32 && (high > 0 || low > 0)
    ensures high * W32 + low > 0
    ensures Ctz(high * W32 + low) == if low > 0 then Ctz(low) else 32 + Ctz(high)
  {
    SmallPowers();
    if low > 0 {
      CtzLow(low, high, 32);
    } else {
      DivUnique(high * W32, W32, high, 0);
      CtzShift(high * W32, 32);
    }
  }

  // Trailing zeros do not look above the lowest set bit.
  lemma {:induction false} CtzLow(x: nat, a: nat, k: nat)
    requires 0 < x < Pow2(k)
    ensures a * Pow2(k) + x > 0 && Ctz(a * Pow2(k) + x) == Ctz(x)
  {
    if k > 0 {
      MulSwap2(a, Pow2(k - 1));
      var y := a * Pow2(k) + x;
      assert y % 2 == x % 2;
      if x % 2 == 0 {
        assert y / 2 == a * Pow2(k - 1) + x / 2;
        CtzLow(x / 2, a, k - 1);
      }
    }
  }
}
