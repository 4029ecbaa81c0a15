// 64-bit division from 32-bit halves: __udivmoddi4 and what is built on it.
module Int64Div {
  import opened Arith
  import opened Bits
  import opened WordDiv
  import opened BitCount
  import opened SignedWords

  const W64: nat := 0x1_0000_0000_0000_0000
  const TOP: nat := 0x8000_0000_0000_0000

  // Shifts of 32-bit words; a count of 32 or more would be undefined.
  function Shl32(x: nat, s: nat): nat
    requires s < 32
  {
    Wrap(x * Pow2(s), W32)
  }

  function Shr32(x: nat, s: nat): nat
    requires s < 32
  {
    Shr(x, s)
  }

  // q and r as the shift step leaves them: the low sr bits of n at the top of q, the rest in r.
  ghost predicate Shifted(n: nat, sr: nat, q: nat, r: nat) {
    && 1 <= sr <= 63
    && q == (n % Pow2(sr)) * Pow2(64 - sr)
    && r == n / Pow2(sr)
  }

  lemma WordPowers(s: nat)
    requires s <= 32
    ensures Pow2(s) * Pow2(32 - s) == W32 && Pow2(32) == W32 && Pow2(64 - s) == Pow2(32 - s) * W32
  {
    hide Pow2;
    SmallPowers();
    Pow2Add(s, 32 - s);
    Pow2Add(32 - s, 32);
  }

  // Splitting a word at bit s, and what shifting makes of the two parts.
  lemma WordSplit(x: nat, s: nat)
    requires 0 < s < 32 && x < W32
    ensures var p, c := Pow2(s), Pow2(32 - s);
            && x == Shr(x, s) * p + x % p && 0 <= x % p < p && Shr(x, s) < c
            && Shl32(x, 32 - s) == (x % p) * c
  {
    hide Pow2;
    WordPowers(s);
    QuotientOf(x, Pow2(s));
    SplitShift(x, Shr(x, s), x % Pow2(s), Pow2(s), Pow2(32 - s));
  }

  lemma SplitShift(x: nat, q: nat, m: nat, p: nat, c: nat)
    requires p >= 1 && c >= 1 && p * c == W32 && x < W32 && x == q * p + m && m < p
    ensures q < c && Wrap(x * c, W32) == m * c
  {
    if q >= c { MulLe(p, c, q); }
    Distribute(q * p, m, c);
    Swap(q, p, c);
    MulLess(c, m, p);
    WrapOf(x * c, W32, m * c, q);
  }

  // 1 <= sr <= 31.
  method ShiftBelow(nh: nat, nl: nat, sr: nat) returns (qh: nat, ql: nat, rh: nat, rl: nat)
    requires nh < W32 && nl < W32 && 1 <= sr <= 31
    ensures qh < W32 && ql < W32 && rh < W32 && rl < W32
    ensures Shifted(nh * W32 + nl, sr, qh * W32 + ql, rh * W32 + rl)
  {
    hide Shr, Shl32, Or, Pow2, Wrap;
    WordPowers(sr);
    WordSplit(nh, sr);
    WordSplit(nl, sr);
    ghost var p, c := Pow2(sr), Pow2(32 - sr);
    OrDisjoint(nh % p, Shr(nl, sr), 32 - sr);
    ql := 0;
    qh := Shl32(nl, 32 - sr);
    rh := Shr32(nh, sr);
    rl := Or(Shl32(nh, 32 - sr), Shr32(nl, sr));
    BelowParts(nh, nl, Shr(nh, sr), nh % p, Shr(nl, sr), nl % p, p, c);
  }

  lemma BelowParts(nh: nat, nl: nat, a: nat, m: nat, b: nat, l: nat, p: nat, c: nat)
    requires p >= 1 && c >= 1 && p * c == W32
    requires nh == a * p + m && nl == b * p + l && m < p && l < p && a < c && b < c
    ensures var n := nh * W32 + nl;
            n / p == a * W32 + (m * c + b) && n % p == l && (l * c) * W32 == l * (c * W32)
    ensures l * c < W32 && m * c + b < W32 && a < W32
  {
    var n := nh * W32 + nl;
    Swap(l, c, W32);
    MulLess(c, m, p);
    MulLess(c, l, p);
    MulLe(c, 1, p);
    var r := a * W32 + (m * c + b);
    calc {
      n;
      (a * p + m) * (p * c) + (b * p + l);
      { Distribute(a * p, m, p * c); Swap(a, p, p * c); DotThree(m, p, c); }
      (a * (p * c)) * p + (m * c) * p + b * p + l;
      { Distribute(a * (p * c), m * c, p); Distribute(a * (p * c) + m * c, b, p); }
      (a * (p * c) + m * c + b) * p + l;
      r * p + l;
    }
    DivUnique(n, p, r, l);
  }

  lemma DotThree(m: int, p: int, c: int)
    ensures m * (p * c) == (m * c) * p
  {}

  // 33 <= sr <= 63.
  method ShiftAbove(nh: nat, nl: nat, sr: nat) returns (qh: nat, ql: nat, rh: nat, rl: nat)
    requires nh < W32 && nl < W32 && 33 <= sr <= 63
    ensures qh < W32 && ql < W32 && rh < W32 && rl < W32
    ensures Shifted(nh * W32 + nl, sr, qh * W32 + ql, rh * W32 + rl)
  {
    hide Shr, Shl32, Or, Pow2, Wrap;
    ghost var t := sr - 32;
    WordPowers(t);
    WordSplit(nh, t);
    WordSplit(nl, t);
    ghost var p, c := Pow2(t), Pow2(32 - t);
    Pow2Add(t, 32);
    OrDisjoint(nh % p, Shr(nl, t), 32 - t);
    ql := Shl32(nl, 64 - sr);
    qh := Or(Shl32(nh, 64 - sr), Shr32(nl, sr - 32));
    rh := 0;
    rl := Shr32(nh, sr - 32);
    AboveParts(nh, nl, Shr(nh, t), nh % p, Shr(nl, t), nl % p, p, c);
  }

  lemma AboveParts(nh: nat, nl: nat, a: nat, m: nat, b: nat, l: nat, p: nat, c: nat)
    requires p >= 1 && c >= 1 && p * c == W32 && nl < W32
    requires nh == a * p + m && nl == b * p + l && m < p && l < p && a < c && b < c
    ensures var n := nh * W32 + nl;
            n / (p * W32) == a && n % (p * W32) == m * W32 + nl
    ensures (m * W32 + nl) * c == (m * c + b) * W32 + l * c
    ensures l * c < W32 && m * c + b < W32 && a < W32
  {
    var n := nh * W32 + nl;
    MulLess(c, m, p);
    MulLess(c, l, p);
    MulLe(c, 1, p);
    MulLess(W32, m, p);
    Distribute(a * p, m, W32);
    Swap(a, p, W32);
    Commute(p * W32, a);
    DivUnique(n, p * W32, a, m * W32 + nl);
    calc {
      (m * W32 + nl) * c;
      { Distribute(m * W32, nl, c); Swap(m, W32, c); Distribute(b * p, l, c); Swap(b, p, c); }
      (m * c) * W32 + b * (p * c) + l * c;
      { Distribute(m * c, b, W32); }
      (m * c + b) * W32 + l * c;
    }
  }

  // sr == 32.
  lemma ShiftedAtWord(nh: nat, nl: nat)
    requires nh < W32 && nl < W32
    ensures Shifted(nh * W32 + nl, 32, nl * W32, nh)
  {
    SmallPowers();
    DivUnique(nh * W32 + nl, W32, nh, nl);
  }

  // The loop with s rounds to go: quot is the quotient of the bits of n consumed so far,
  // all of it but its last bit, the carry, already at the bottom of q.
  ghost predicate Looping(n: nat, d: nat, s: nat, q: nat, r: nat, carry: nat, quot: nat) {
    && s <= 63 && carry == quot % 2
    && n / Pow2(s) == quot * d + r && r < d
    && quot < Pow2(64 - s)
    && q == (n % Pow2(s)) * Pow2(64 - s) + quot / 2
    && (s > 0 ==> r < TOP)
  }

  lemma StartLooping(n: nat, d: nat, s: nat, q: nat, r: nat)
    requires Shifted(n, s, q, r) && r < d && r < TOP
    ensures Looping(n, d, s, q, r, 0, 0)
  {}

  // Taking one more bit of the dividend.
  lemma NextBit(n: nat, s: nat) returns (bit: nat, low: nat)
    requires 1 <= s
    ensures bit <= 1 && low == n % Pow2(s - 1)
    ensures n % Pow2(s) == bit * Pow2(s - 1) + low && low < Pow2(s - 1)
    ensures n / Pow2(s - 1) == 2 * (n / Pow2(s)) + bit
  {
    hide Pow2;
    PowStep(s - 1);
    bit, low := SplitBit(n, Pow2(s - 1));
  }

  lemma SplitBit(n: nat, p: nat) returns (bit: nat, low: nat)
    requires p >= 1
    ensures bit <= 1 && low == n % p && low < p
    ensures n % (2 * p) == bit * p + low && n / p == 2 * (n / (2 * p)) + bit
  {
    QuotientOf(n, 2 * p);
    var q, m := n / (2 * p), n % (2 * p);
    bit := if m >= p then 1 else 0;
    low := if m >= p then m - p else m;
    OneTimes(p);
    SplitProduct(q, bit, p);
    DivUnique(n, p, 2 * q + bit, low);
  }

  lemma SplitProduct(q: nat, bit: nat, p: nat)
    ensures p * (2 * q + bit) == q * (2 * p) + bit * p
  {}

  // The doubled remainder never overflows, and q gives up its top bit.
  lemma ShiftRound(n: nat, d: nat, s: nat, q: nat, r: nat, carry: nat, quot: nat) returns (bit: nat)
    requires 1 <= s && Looping(n, d, s, q, r, carry, quot)
    ensures bit <= 1 && q < W64 && q / TOP == bit
    ensures n / Pow2(s - 1) == (2 * quot) * d + (2 * r + bit)
    ensures Wrap(2 * q + carry, W64) == (n % Pow2(s - 1)) * Pow2(65 - s) + quot
    ensures 2 * r + bit < W64 && 2 * r + bit < 2 * d
    ensures bit == 1 ==> n >= Pow2(s - 1)
  {
    var low;
    bit, low := NextBit(n, s);
    var c := Pow2(64 - s);
    TopPower(s);
    ShiftParts(q, bit, low, Pow2(s - 1), c, quot, carry);
    MulSwap2(low, c);
    Distribute(quot, quot, d);
    if bit == 1 { QuotientOf(n, Pow2(s)); MulLe(Pow2(s), 0, n / Pow2(s)); }
  }

  lemma TopPower(s: nat)
    requires 1 <= s <= 64
    ensures Pow2(s - 1) * Pow2(64 - s) == TOP
  {
    hide Pow2;
    SmallPowers();
    Pow2Add(s - 1, 64 - s);
    Pow2Add(31, 32);
  }

  lemma ShiftParts(q: nat, bit: nat, low: nat, p: nat, c: nat, quot: nat, carry: nat)
    requires p >= 1 && c >= 1 && p * c == TOP && bit <= 1 && low < p && quot < c && carry == quot % 2
    requires q == (bit * p + low) * c + quot / 2
    ensures q < W64 && q / TOP == bit
    ensures Wrap(2 * q + carry, W64) == 2 * (low * c) + quot
  {
    Distribute(bit * p, low, c);
    Swap(bit, p, c);
    MulLess(c, low, p);
    var rest := low * c + quot / 2;
    DivUnique(q, TOP, bit, rest);
    WrapOf(2 * q + carry, W64, 2 * rest + carry, bit);
  }

  // The sign of d - r - 1 tells r >= d, even when d has its top bit set.
  lemma SignCompare(d: nat, r: nat)
    requires 0 < d < W64 && r < W64 && r < 2 * d
    requires d <= TOP || r >= TOP
    ensures Wrap(d - r - 1, W64) >= TOP <==> r >= d
  {
    if r >= d {
      WrapOf(d - r - 1, W64, d - r - 1 + W64, -1);
    } else {
      WrapOf(d - r - 1, W64, d - r - 1, 0);
    }
  }

  // Subtracting the divisor or not, by masking it.
  lemma MaskedSubtract(d: nat, r: nat)
    requires d < W64 && r < W64
    ensures And(d, W64 - 1) == d && And(d, 0) == 0 && And(W64 - 1, 1) == 1 && And(0, 1) == 0
    ensures r >= d ==> Wrap(r - d, W64) == r - d
    ensures Wrap(r - 0, W64) == r
  {
    hide Pow2;
    SmallPowers();
    Pow2Add(32, 32);
    AndLowMask(d, 64);
    SmallMod(d, W64);
    LowBit(W64 - 1);
    LowBit(0);
    SubWrap(r, d, W64);
    SubWrap(r, 0, W64);
  }

  lemma FinishRound(n: nat, d: nat, s: nat, q: nat, r: nat, quot: nat, sub: bool)
    requires 1 <= s <= 63 && quot < Pow2(64 - s)
    requires n / Pow2(s - 1) == (2 * quot) * d + r
    requires q == (n % Pow2(s - 1)) * Pow2(65 - s) + quot
    requires r < 2 * d && (sub <==> r >= d)
    requires s > 1 ==> d <= TOP
    ensures Looping(n, d, s - 1, q, if sub then r - d else r, if sub then 1 else 0, if sub then 2 * quot + 1 else 2 * quot)
  {
    hide Pow2;
    PowStep(64 - s);
    AddOne(quot, d, r);
    var k := if sub then 2 * quot + 1 else 2 * quot;
    assert k / 2 == quot && k % 2 == (if sub then 1 else 0);
  }

  lemma PowStep(k: nat)
    ensures Pow2(k + 1) == 2 * Pow2(k)
  {}

  lemma AddOne(quot: nat, d: nat, r: int)
    ensures (2 * quot) * d + r == (2 * quot + 1) * d + (r - d)
  {
    Distribute(2 * quot, 1, d);
    OneTimes(d);
  }

  // Shifting the two halves of a 64-bit word left by one, with a bit coming in.
  lemma ShiftHalves(h: nat, l: nat, bit: nat)
    requires h < W32 && l < W32 && bit <= 1
    ensures var h' := Or(Shl32(h, 1), Shr32(l, 31)); var l' := Or(Shl32(l, 1), bit);
            h' < W32 && l' < W32 && h' * W32 + l' == Wrap(2 * (h * W32 + l) + bit, W64)
    ensures Shr32(h, 31) == (h * W32 + l) / TOP && Shr32(h, 31) <= 1
  {
    hide Pow2, Shl32, Shr32, Or, Wrap;
    SmallPowers();
    HalfShift(h);
    HalfShift(l);
    var a, b := h / 0x8000_0000, l / 0x8000_0000;
    OrDisjoint(h - a * 0x8000_0000, b, 1);
    OrDisjoint(l - b * 0x8000_0000, bit, 1);
    var x := h * W32 + l;
    WrapOf(2 * x + bit, W64, 2 * x + bit - a * W64, a);
    DivUnique(x, TOP, a, x - a * TOP);
  }

  lemma HalfShift(x: nat)
    requires x < W32
    ensures var a := x / 0x8000_0000;
            && 0 <= a <= 1 && a * 0x8000_0000 <= x && x - a * 0x8000_0000 < 0x8000_0000
            && Shr32(x, 31) == a
            && Shl32(x, 1) == (x - a * 0x8000_0000) * 2
  {
    SmallPowers();
    var a := x / 0x8000_0000;
    WrapOf(x * 2, W32, (x - a * 0x8000_0000) * 2, a);
  }

  lemma ShiftedRange(n: nat, s: nat, q: nat, r: nat)
    requires Shifted(n, s, q, r)
    ensures 1 <= s <= 63
  {}

  lemma LoopingBounds(n: nat, d: nat, s: nat, q: nat, r: nat, carry: nat, quot: nat)
    requires Looping(n, d, s, q, r, carry, quot)
    ensures s <= 63 && r < d && quot < Pow2(64 - s)
  {}

  // A divisor with its top bit set gets one round, on the whole dividend.
  lemma LargeDivisor(n: nat, d: nat, quot: nat, r: nat)
    requires TOP < d && TOP <= n < W64 && n == (2 * quot) * d + r
    ensures r == n
  {
    if quot >= 1 { MulLe(d, 2, 2 * quot); }
  }

  lemma LoopEnd(n: nat, d: nat, q: nat, r: nat, carry: nat, quot: nat)
    requires Looping(n, d, 0, q, r, carry, quot)
    ensures n == quot * d + r && r < d && quot < W64
    ensures Or(Wrap(2 * q, W64), carry) == quot
  {
    hide Pow2;
    SmallPowers();
    Pow2Add(32, 32);
    PowZero(n);
    var h := quot / 2;
    assert q == h;
    SmallMod(2 * h, W64);
    OrDisjoint(h, carry, 1);
  }

  lemma PowZero(n: nat)
    ensures Pow2(0) == 1 && n / Pow2(0) == n && n % Pow2(0) == 0
  {}

  // The division loop, one quotient bit a round.
  method DivideLoop(n: nat, d: nat, sr0: nat, qh: nat, ql: nat, rh: nat, rl: nat) returns (quot: nat, rem: nat)
    requires n < W64 && 0 < d < W64
    requires qh < W32 && ql < W32 && rh < W32 && rl < W32
    requires Shifted(n, sr0, qh * W32 + ql, rh * W32 + rl)
    requires rh * W32 + rl < d && rh * W32 + rl < TOP
    requires d <= TOP || (sr0 == 1 && n >= TOP)
    ensures n == quot * d + rem && rem < d && quot < W64
  {
    hide Looping, And, Or, Wrap, Shr, Shl32, Shr32, Shifted, Pow2;
    var q_high: nat, q_low: nat, r_high: nat, r_low: nat := qh, ql, rh, rl;
    var carry: nat, sr: nat := 0, sr0;
    ghost var k: nat := 0;
    StartLooping(n, d, sr0, qh * W32 + ql, rh * W32 + rl);
    ShiftedRange(n, sr0, qh * W32 + ql, rh * W32 + rl);
    while sr > 0
      invariant sr <= sr0 && q_high < W32 && q_low < W32 && r_high < W32 && r_low < W32 && carry <= 1
      invariant Looping(n, d, sr, q_high * W32 + q_low, r_high * W32 + r_low, carry, k)
      decreases sr
    {
      q_high, q_low, r_high, r_low, carry, k := Round(n, d, sr, q_high, q_low, r_high, r_low, carry, k);
      sr := sr - 1;
    }
    LoopEnd(n, d, q_high * W32 + q_low, r_high * W32 + r_low, carry, k);
    quot := Or(Wrap(2 * (q_high * W32 + q_low), W64), carry);
    rem := r_high * W32 + r_low;
  }

  // The loop body.
  method Round(ghost n: nat, d: nat, ghost s: nat, qh: nat, ql: nat, rh: nat, rl: nat, c: nat, ghost k: nat)
    returns (q_high: nat, q_low: nat, r_high: nat, r_low: nat, carry: nat, ghost k': nat)
    requires n < W64 && 0 < d < W64 && 1 <= s
    requires qh < W32 && ql < W32 && rh < W32 && rl < W32 && c <= 1
    requires Looping(n, d, s, qh * W32 + ql, rh * W32 + rl, c, k)
    requires d <= TOP || (s == 1 && n >= TOP)
    ensures q_high < W32 && q_low < W32 && r_high < W32 && r_low < W32 && carry <= 1
    ensures Looping(n, d, s - 1, q_high * W32 + q_low, r_high * W32 + r_low, carry, k')
  {
    hide Looping, And, Or, Wrap, Shr, Shl32, Shr32, Pow2;
    ghost var bit := ShiftRound(n, d, s, qh * W32 + ql, rh * W32 + rl, c, k);
    LoopingBounds(n, d, s, qh * W32 + ql, rh * W32 + rl, c, k);
    q_high, q_low, r_high, r_low := ShiftFour(qh, ql, rh, rl, c, bit);
    ghost var r := 2 * (rh * W32 + rl) + bit;
    var r_all := r_high * W32 + r_low;
    WrapOf(r, W64, r, 0);
    if d > TOP { PowZero(n); LargeDivisor(n, d, k, r); }
    r_all, carry := CompareSubtract(d, r_all);
    FinishRound(n, d, s, q_high * W32 + q_low, r, k, r >= d);
    k' := 2 * k + carry;
    r_high, r_low := r_all / W32, r_all % W32;
  }

  method ShiftFour(qh: nat, ql: nat, rh: nat, rl: nat, carry: nat, ghost bit: nat) returns (q_high: nat, q_low: nat, r_high: nat, r_low: nat)
    requires qh < W32 && ql < W32 && rh < W32 && rl < W32 && carry <= 1
    requires bit == (qh * W32 + ql) / TOP
    ensures q_high < W32 && q_low < W32 && r_high < W32 && r_low < W32
    ensures q_high * W32 + q_low == Wrap(2 * (qh * W32 + ql) + carry, W64)
    ensures r_high * W32 + r_low == Wrap(2 * (rh * W32 + rl) + bit, W64)
  {
    hide Or, Wrap, Shl32, Shr32;
    ShiftHalves(qh, ql, carry);
    ShiftHalves(rh, rl, bit);
    r_high := Or(Shl32(rh, 1), Shr32(rl, 31));
    r_low := Or(Shl32(rl, 1), Shr32(qh, 31));
    q_high := Or(Shl32(qh, 1), Shr32(ql, 31));
    q_low := Or(Shl32(ql, 1), carry);
  }

  // The branchless compare and subtract.
  method CompareSubtract(d: nat, r: nat) returns (r': nat, carry: nat)
    requires 0 < d < W64 && r < W64 && r < 2 * d
    requires d <= TOP || r >= TOP
    ensures r' == (if r >= d then r - d else r) && carry == if r >= d then 1 else 0
  {
    hide And, Wrap;
    SignCompare(d, r);
    MaskedSubtract(d, r);
    var s := if Wrap(d - r - 1, W64) >= TOP then W64 - 1 else 0;
    carry := And(s, 1);
    r' := Wrap(r - And(d, s), W64);
  }

  // A dividend below d * 2^sr leaves a remainder below d after the shift.
  lemma EntryBelow(n: nat, d: nat, e: nat, s: nat)
    requires n < Pow2(e + s) && Pow2(e) <= d
    ensures 0 <= n / Pow2(s) < d
  {
    hide Pow2;
    Pow2Add(e, s);
    QuotientOf(n, Pow2(s));
    var q := n / Pow2(s);
    if q >= d {
      MulLe(Pow2(s), Pow2(e), q);
    }
  }

  // The size of a 64-bit word with a non-zero high half.
  lemma HighSize(h: nat, l: nat)
    requires 0 < h < W32 && l < W32
    ensures 0 <= Clz(h) <= 31
    ensures Pow2(63 - Clz(h)) <= h * W32 + l < Pow2(64 - Clz(h)) && h * W32 + l < W64
  {
    LowSize(h);
    JoinBitLen(h, l);
    BitLenBounds(h * W32 + l);
  }

  lemma LowSize(x: nat)
    requires 0 < x < W32
    ensures 0 <= Clz(x) <= 31 && Pow2(31 - Clz(x)) <= x < Pow2(32 - Clz(x))
  {
    hide Pow2, BitLen;
    SmallPowers();
    BitLenBounds(x);
    if BitLen(x) > 32 { Pow2Monotone(32, BitLen(x) - 1); }
  }

  // What the shift count computed from leading zeros guarantees on entry to the loop.
  lemma EntryOk(n: nat, d: nat, e: nat, c: nat, sr: nat, q: nat, r: nat)
    requires c <= 63 && n < Pow2(64 - c) && Pow2(e) <= d && 64 - c == e + sr
    requires Shifted(n, sr, q, r) && n < W64 && d < W64
    ensures r < d && r < TOP
  {
    EntryBelow(n, d, e, sr);
    HalfOf(n, sr);
  }

  lemma HalfOf(n: nat, s: nat)
    requires 1 <= s && n < W64
    ensures n / Pow2(s) < TOP
  {
    QuotientOf(n, Pow2(s));
    var q := n / Pow2(s);
    MulLe(q, 2, Pow2(s));
  }

  datatype Outcome = Done(q: nat, r: nat) | Loop(sr: nat, qh: nat, ql: nat, rh: nat, rl: nat)

  ghost predicate OutcomeOk(n: nat, d: nat, o: Outcome) {
    match o
    case Done(q, r) => n == q * d + r && r < d && q < W64
    case Loop(sr, qh, ql, rh, rl) =>
      && qh < W32 && ql < W32 && rh < W32 && rl < W32
      && Shifted(n, sr, qh * W32 + ql, rh * W32 + rl)
      && rh * W32 + rl < d && rh * W32 + rl < TOP
      && (d <= TOP || (sr == 1 && n >= TOP))
  }

  // A divisor with more leading zeros fewer than the dividend's exceeds it.
  lemma DividendSmaller(nh: nat, nl: nat, dh: nat, dl: nat)
    requires 0 < nh < W32 && nl < W32 && 0 < dh < W32 && dl < W32 && Clz(dh) < Clz(nh)
    ensures nh * W32 + nl < dh * W32 + dl
  {
    hide Pow2, Clz;
    HighSize(nh, nl);
    HighSize(dh, dl);
    Pow2Monotone(64 - Clz(nh), 63 - Clz(dh));
  }

  // The entry condition for a divisor with a non-zero high half.
  lemma HighEntry(nh: nat, nl: nat, dh: nat, dl: nat, sr: nat, q: nat, r: nat)
    requires 0 < nh < W32 && nl < W32 && 0 < dh < W32 && dl < W32
    requires sr == Clz(dh) - Clz(nh) + 1 && sr >= 1
    requires Shifted(nh * W32 + nl, sr, q, r)
    ensures var n, d := nh * W32 + nl, dh * W32 + dl;
            r < d && r < TOP && (d <= TOP || (sr == 1 && n >= TOP))
  {
    hide Pow2, Clz, Shifted;
    HighSize(nh, nl);
    HighSize(dh, dl);
    EntryOk(nh * W32 + nl, dh * W32 + dl, 63 - Clz(dh), Clz(nh), sr, q, r);
    SmallPowers();
    Pow2Add(31, 32);
    if Clz(dh) >= 1 { Pow2Monotone(64 - Clz(dh), 63); }
  }

  lemma WrapDifference(a: int, b: int)
    requires 0 <= a <= 31 && 0 <= b <= 31
    ensures Wrap(a - b, W32) == if a >= b then a - b else a - b + W32
  {
    WrapOf(a - b, W32, if a >= b then a - b else a - b + W32, if a >= b then 0 else -1);
  }

  lemma PowerOfTwo(x: nat)
    requires 0 < x < W32 && And(x, x - 1) == 0
    ensures x == Pow2(Ctz(x)) && Ctz(x) < 32
    ensures forall y: nat :: And(y, x - 1) == y % x
  {
    AndPred(x);
    var k: nat :| x == Pow2(k);
    CtzOfPower(k);
    CtzBelow(x);
    forall y: nat ensures And(y, x - 1) == y % x { AndLowMask(y, k); }
  }

  lemma {:induction false} CtzOfPower(k: nat)
    ensures Ctz(Pow2(k)) == k
  {
    if k > 0 { CtzOfPower(k - 1); }
  }

  lemma WholeHalves(nh: nat, nl: nat, dh: nat)
    requires 0 < dh && nl < W32
    ensures nh * W32 + nl == (nh / dh) * (dh * W32) + ((nh % dh) * W32 + nl)
    ensures (nh % dh) * W32 + nl < dh * W32
    ensures 0 <= nh / dh <= nh
  {
    QuotientOf(nh, dh);
    Distribute((nh / dh) * dh, nh % dh, W32);
    Swap(nh / dh, dh, W32);
    MulLe(nh / dh, 1, dh);
  }

  // The divisor's low half is zero.
  method DivideLowZero(nh: nat, nl: nat, dh: nat) returns (o: Outcome)
    requires 0 < nh < W32 && nl < W32 && 0 < dh < W32
    ensures OutcomeOk(nh * W32 + nl, dh * W32, o)
  {
    hide And, Clz, Ctz, Pow2, Shr, Shifted, Wrap;
    WholeHalves(nh, nl, dh);
    if nl == 0 { return Done(nh / dh, (nh % dh) * W32); }
    if And(dh, dh - 1) == 0 {
      PowerOfTwo(dh);
      ShrDivides(nh, dh, Ctz(dh));
      return Done(Shr32(nh, Ctz(dh)), And(nh, dh - 1) * W32 + nl);
    }
    LowSize(dh);
    LowSize(nh);
    WrapDifference(Clz(dh), Clz(nh));
    var sr := Wrap(Clz(dh) - Clz(nh), W32);
    if sr > 30 {
      if Clz(dh) >= Clz(nh) { NotOne(dh); }
      DividendSmaller(nh, nl, dh, 0);
      return Done(0, nh * W32 + nl);
    }
    sr := sr + 1;
    var qh, ql, rh, rl := ShiftBelow(nh, nl, sr);
    HighEntry(nh, nl, dh, 0, sr, qh * W32 + ql, rh * W32 + rl);
    o := Loop(sr, qh, ql, rh, rl);
  }

  lemma ShrDivides(x: nat, d: nat, c: nat)
    requires d == Pow2(c)
    ensures Shr(x, c) == x / d
  {}

  // Thirty-one leading zeros leave only the number one.
  lemma NotOne(d: nat)
    requires 0 < d < W32 && And(d, d - 1) != 0
    ensures Clz(d) != 31
  {
    AndZero(1);
    LowSize(d);
  }

  // The divisor's high half is zero.
  method DivideHighZero(nh: nat, nl: nat, dl: nat) returns (o: Outcome)
    requires 0 < nh < W32 && nl < W32 && 0 < dl < W32
    ensures OutcomeOk(nh * W32 + nl, dl, o)
  {
    hide And, Or, Clz, Ctz, Pow2, Shr, Shifted, Wrap, Shl32;
    if And(dl, dl - 1) == 0 {
      o := DivideByPower(nh, nl, dl);
      return;
    }
    LowSize(dl);
    LowSize(nh);
    NotOneSize(dl);
    var sr: nat := 1 + 32 + Clz(dl) - Clz(nh);
    var qh: nat, ql: nat, rh: nat, rl: nat;
    if sr == 32 {
      qh, ql, rh, rl := nl, 0, 0, nh;
      ShiftedAtWord(nh, nl);
    } else if sr < 32 {
      qh, ql, rh, rl := ShiftBelow(nh, nl, sr);
    } else {
      qh, ql, rh, rl := ShiftAbove(nh, nl, sr);
    }
    HighSize(nh, nl);
    EntryOk(nh * W32 + nl, dl, 31 - Clz(dl), Clz(nh), sr, qh * W32 + ql, rh * W32 + rl);
    o := Loop(sr, qh, ql, rh, rl);
  }

  lemma NotOneSize(d: nat)
    requires 0 < d < W32 && And(d, d - 1) != 0
    ensures 0 <= Clz(d) <= 30
  {
    LowSize(d);
    NotOne(d);
  }

  method DivideByPower(nh: nat, nl: nat, dl: nat) returns (o: Outcome)
    requires 0 < nh < W32 && nl < W32 && 0 < dl < W32 && And(dl, dl - 1) == 0
    ensures OutcomeOk(nh * W32 + nl, dl, o)
  {
    hide And, Or, Ctz, Pow2, Shr, Shl32, Wrap;
    PowerOfTwo(dl);
    var r := And(nl, dl - 1);
    if dl == 1 {
      ModOne(nl);
      return Done(nh * W32 + nl, r);
    }
    var sr := Ctz(dl);
    PowZero(0);
    WordPowers(sr);
    WordSplit(nh, sr);
    WordSplit(nl, sr);
    OrDisjoint(nh % dl, Shr(nl, sr), 32 - sr);
    BelowParts(nh, nl, Shr(nh, sr), nh % dl, Shr(nl, sr), nl % dl, dl, Pow2(32 - sr));
    QuotientOf(nh * W32 + nl, dl);
    var qh, ql := Shr32(nh, sr), Or(Shl32(nh, 32 - sr), Shr32(nl, sr));
    o := Done(qh * W32 + ql, r);
  }

  lemma ModOne(x: nat)
    ensures x % 1 == 0 && x * 1 == x
  {}

  // Neither half of the divisor is zero.
  method DivideGeneral(nh: nat, nl: nat, dh: nat, dl: nat) returns (o: Outcome)
    requires 0 < nh < W32 && nl < W32 && 0 < dh < W32 && 0 < dl < W32
    ensures OutcomeOk(nh * W32 + nl, dh * W32 + dl, o)
  {
    hide Clz, Pow2, Shr, Shifted, Wrap;
    LowSize(dh);
    LowSize(nh);
    WrapDifference(Clz(dh), Clz(nh));
    var sr := Wrap(Clz(dh) - Clz(nh), W32);
    if sr > 31 {
      DividendSmaller(nh, nl, dh, dl);
      return Done(0, nh * W32 + nl);
    }
    sr := sr + 1;
    var qh: nat, ql: nat, rh: nat, rl: nat;
    if sr == 32 {
      qh, ql, rh, rl := nl, 0, 0, nh;
      ShiftedAtWord(nh, nl);
    } else {
      qh, ql, rh, rl := ShiftBelow(nh, nl, sr);
    }
    HighEntry(nh, nl, dh, dl, sr, qh * W32 + ql, rh * W32 + rl);
    o := Loop(sr, qh, ql, rh, rl);
  }

  // __udivmoddi4: quotient and remainder of 64-bit words.
  method Udivmoddi4(a: nat, b: nat) returns (q: nat, rem: nat)
    requires a < W64 && 0 < b < W64
    ensures a == q * b + rem && rem < b && q < W64
  {
    hide Shifted;
    var nh, nl := a / W32, a % W32;
    var dh, dl := b / W32, b % W32;
    if nh == 0 {
      if dh == 0 {
        QuotientOf(nl, dl);
        WholeHalves(nl, 0, dl);
        return nl / dl, nl % dl;
      }
      return 0, nl;
    }
    var o;
    if dl == 0 {
      o := DivideLowZero(nh, nl, dh);
    } else if dh == 0 {
      o := DivideHighZero(nh, nl, dl);
    } else {
      o := DivideGeneral(nh, nl, dh, dl);
    }
    match o {
      case Done(quot, r) =>
        q, rem := quot, r;
      case Loop(sr, qh, ql, rh, rl) =>
        q, rem := DivideLoop(a, b, sr, qh, ql, rh, rl);
    }
  }

  // x ^ s - s for a mask s of all sign bits: negation, or nothing.
  lemma ConditionalNegate(x: nat)
    requires x < W64
    ensures Pow2(64) == W64
    ensures Wrap(Xor(x, 0) - 0, W64) == x
    ensures Wrap(Xor(x, W64 - 1) - (W64 - 1), W64) == Neg(x, 64)
  {
    hide Pow2;
    SmallPowers();
    Pow2Add(32, 32);
    XorOnes(x, 64);
    XorZero(x);
    WrapOf(x, W64, x, 0);
    WrapOf(0 - x, W64, Neg(x, 64), if x == 0 then 0 else -1);
  }

  lemma XorZero(x: nat)
    ensures Xor(x, 0) == x
  {}

  lemma XorMasks()
    ensures Xor(0, 0) == 0 && Xor(W64 - 1, 0) == W64 - 1 && Xor(0, W64 - 1) == W64 - 1 && Xor(W64 - 1, W64 - 1) == 0
  {
    hide Pow2;
    SmallPowers();
    Pow2Add(32, 32);
    XorZero(W64 - 1);
    XorOnes(W64 - 1, 64);
    XorOnes(0, 64);
  }

  // All ones for a negative word: the arithmetic shift by 63.
  function SignMask(x: nat): nat { if x >= TOP then W64 - 1 else 0 }

  lemma SignOfWord(x: nat)
    requires x < W64
    ensures Pow2(64) == W64 && Pow2(63) == TOP
    ensures Signed(x, 64) < 0 <==> x >= TOP
    ensures x != 0 ==> Signed(x, 64) != 0
    ensures Wrap(Xor(x, SignMask(x)) - SignMask(x), W64) == Abs(Signed(x, 64)) < W64
  {
    hide Pow2, Xor, Wrap;
    SmallPowers();
    Pow2Add(32, 32);
    Pow2Add(31, 32);
    ConditionalNegate(x);
    SignedFacts(x, 64);
  }

  // __divdi3 on 64-bit two's complement words.
  method Divdi3(a: nat, b: nat) returns (r: nat)
    requires a < W64 && 0 < b < W64
    ensures r < W64 && Signed(b, 64) != 0
    ensures Overflows(a, b, 64) ==> r == a
    ensures !Overflows(a, b, 64) ==> Signed(r, 64) == TruncDiv(Signed(a, 64), Signed(b, 64))
  {
    hide Pow2, Xor, Wrap, TruncDiv;
    SignOfWord(a);
    SignOfWord(b);
    XorMasks();
    var sa, sb := SignMask(a), SignMask(b);
    var q, rem := Udivmoddi4(Wrap(Xor(a, sa) - sa, W64), Wrap(Xor(b, sb) - sb, W64));
    QuotientWord(64, a, b, q, rem);
    ConditionalNegate(q);
    sa := Xor(sa, sb);
    r := Wrap(Xor(q, sa) - sa, W64);
  }

  // __moddi3: the remainder carries the dividend's sign.
  method Moddi3(a: nat, b: nat) returns (r: nat)
    requires a < W64 && 0 < b < W64
    ensures r < W64 && Signed(b, 64) != 0
    ensures Signed(r, 64) == TruncRem(Signed(a, 64), Signed(b, 64))
  {
    hide Pow2, Xor, Wrap, TruncRem;
    SignOfWord(a);
    SignOfWord(b);
    var s := SignMask(a);
    var q, rem := Udivmoddi4(Wrap(Xor(a, s) - s, W64), Wrap(Xor(b, SignMask(b)) - SignMask(b), W64));
    RemainderWord(64, a, b, q, rem);
    ConditionalNegate(rem);
    r := Wrap(Xor(rem, s) - s, W64);
  }

  // __divmoddi4: the truncated quotient, and the remainder as what the wrapped product leaves.
  method Divmoddi4(a: nat, b: nat) returns (d: nat, rem: nat)
    requires a < W64 && 0 < b < W64
    ensures d < W64 && rem < W64 && Signed(b, 64) != 0
    ensures a == Wrap(d * b + rem, W64)
    ensures Overflows(a, b, 64) ==> d == a
    ensures !Overflows(a, b, 64) ==> Signed(d, 64) == TruncDiv(Signed(a, 64), Signed(b, 64))
    ensures Signed(rem, 64) == TruncRem(Signed(a, 64), Signed(b, 64))
  {
    hide Wrap, TruncRem, TruncDiv, Pow2;
    d := Divdi3(a, b);
    rem := Wrap(a - d * b, W64);
    SignOfWord(a);
    SignOfWord(b);
    SignOfWord(d);
    SignOfWord(rem);
    WordRemainder(a, b, d, rem);
  }

  // A word and its signed value differ by a multiple of the word base.
  lemma SignedMultiple(x: nat) returns (t: int)
    requires x < W64
    ensures x == Signed(x, 64) + t * W64 && (0 - TOP) <= Signed(x, 64) < TOP
  {
    SignOfWord(x);
    t := if x >= TOP then 1 else 0;
  }

  lemma WordRemainder(a: nat, b: nat, d: nat, rem: nat)
    requires a < W64 && 0 < b < W64 && d < W64 && Signed(b, 64) != 0
    requires rem == Wrap(a - d * b, W64)
    requires Overflows(a, b, 64) ==> d == a
    requires !Overflows(a, b, 64) ==> Signed(d, 64) == TruncDiv(Signed(a, 64), Signed(b, 64))
    ensures a == Wrap(d * b + rem, W64)
    ensures Signed(rem, 64) == TruncRem(Signed(a, 64), Signed(b, 64))
  {
    hide Wrap, TruncRem, TruncDiv, Pow2, Signed;
    var t := WrapMultiple(a - d * b, W64);
    WrapOf(d * b + rem, W64, a, -t);
    var sa, sb, sd := Signed(a, 64), Signed(b, 64), Signed(d, 64);
    var ta := SignedMultiple(a);
    var tb := SignedMultiple(b);
    var td := SignedMultiple(d);
    var tr := SignedMultiple(rem);
    var q := TruncDiv(sa, sb);
    TruncLaw(sa, sb);
    var o := QuotientMultiple(a, b, d, q);
    // a - d * b, with every word replaced by its signed value
    calc {
      d * b;
      (q + o * W64) * (sb + tb * W64);
      { Distribute(q, o * W64, sb + tb * W64); Swap(o, W64, sb + tb * W64); SpreadRight(q, sb, tb); }
      q * sb + (q * tb + o * b) * W64;
    }
    var x := ta - (q * tb + o * b) - t - tr;
    assert Signed(rem, 64) == TruncRem(sa, sb) + x * W64;
    SmallSigned(Signed(rem, 64), TruncRem(sa, sb), sb, x);
  }

  lemma SpreadRight(q: int, s: int, t: int)
    ensures q * (s + t * W64) == q * s + (q * t) * W64
  {}

  lemma QuotientMultiple(a: nat, b: nat, d: nat, q: int) returns (o: int)
    requires a < W64 && 0 < b < W64 && d < W64 && Signed(b, 64) != 0
    requires q == TruncDiv(Signed(a, 64), Signed(b, 64))
    requires Overflows(a, b, 64) ==> d == a
    requires !Overflows(a, b, 64) ==> Signed(d, 64) == q
    ensures d == q + o * W64
  {
    hide Pow2;
    SignOfWord(a);
    var t := SignedMultiple(d);
    if Overflows(a, b, 64) {
      assert TruncDiv((0 - TOP), -1) == TOP;
      o := 0;
    } else {
      o := t;
    }
  }

  lemma SmallSigned(r: int, m: int, b: int, x: int)
    requires (0 - TOP) <= r < TOP && Abs(m) < Abs(b) && (0 - TOP) <= b < TOP && r == m + x * W64
    ensures r == m
  {
    if x >= 1 { MulLe(W64, 1, x); }
    if x <= -1 { MulLe(W64, x, -1); }
  }
}
