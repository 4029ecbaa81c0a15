// __multi3: the low double word of a product of double words, for any word width.
module Multi3 {
  import opened Arith
  import opened Bits
  import opened WordDiv

  // The value of a double word.
  function Double(high: nat, low: nat, B: nat): nat { high * B + low }

  lemma DoubleBound(high: nat, low: nat, B: nat)
    requires high < B && low < B
    ensures Double(high, low, B) < B * B
  {
    MulLess(B, high, B);
  }

  // Adding double words with an explicit carry from the low words.
  lemma AddCarry(wh: nat, wl: nat, th: nat, ul: nat, B: nat) returns (t: int)
    requires B >= 1 && wh < B && wl < B && th < B && ul < B
    ensures var nl := Wrap(wl + ul, B); var c := if nl < wl then 1 else 0;
            Double(wh, wl, B) + Double(th, ul, B) == Double(Wrap(c + Wrap(th + wh, B), B), nl, B) + t * (B * B)
  {
    hide Wrap;
    AddWrap(ul, wl, B);
    var nl := Wrap(wl + ul, B);
    var c := if nl < wl then 1 else 0;
    var s := Wrap(th + wh, B);
    var t1 := WrapMultiple(th + wh, B);
    var t2 := WrapMultiple(c + s, B);
    var h := Wrap(c + s, B);
    t := t1 + t2;
    assert wl + ul == nl + c * B;
    assert th + wh + c == h + t * B by { Distribute(t1, t2, B); }
    Distribute(wh, th, B);
    Distribute(wh + th, c, B);
    Distribute(h, t * B, B);
    Swap(t, B, B);
  }

  // Shifting a double word left by one through its two halves.
  lemma ShiftDouble(th: nat, ul: nat, W: nat) returns (t: int)
    requires W >= 1 && th < Pow2(W) && ul < Pow2(W)
    ensures var B := Pow2(W); var msb := ul / Pow2(W - 1);
            && 0 <= msb <= 1
            && Or(msb, Wrap(2 * th, B)) < B
            && 2 * Double(th, ul, B) == Double(Or(msb, Wrap(2 * th, B)), Wrap(2 * ul, B), B) + t * (B * B)
  {
    hide Wrap, Pow2, Or, Double;
    PowHalf(W);
    Pow2Monotone(0, W - 1);
    var half, B := Pow2(W - 1), Pow2(W);
    TopBit(ul, half);
    var msb := ul / half;
    DoubleHalf(ul, half, msb);
    var h2 := if th < half then th else th - half;
    DoubleHalf(th, half, if th < half then 0 else 1);
    t := if th < half then 0 else 1;
    assert Wrap(2 * th, B) == 2 * h2;
    PowHalf(1);
    PowZero();
    OrDisjoint(h2, msb, 1);
    OrSymmetric(msb, h2 * 2);
    ShiftCombine(th, ul, h2, Wrap(2 * ul, B), msb, t, B);
  }

  lemma ShiftCombine(th: nat, ul: nat, h2: nat, nl: nat, msb: nat, t: int, B: nat)
    requires 2 * ul == nl + msb * B && 2 * th == 2 * h2 + t * B
    ensures 2 * Double(th, ul, B) == Double(h2 * 2 + msb, nl, B) + t * (B * B)
  {
    Distribute(th, th, B);
    Distribute(2 * h2, t * B, B);
    Distribute(2 * h2, msb, B);
    Swap(t, B, B);
  }

  lemma PowZero()
    ensures Pow2(0) == 1
  {}

  lemma TopBit(x: nat, half: nat)
    requires half >= 1 && x < 2 * half
    ensures x / half == if x >= half then 1 else 0
  {
    if x >= half { DivUnique(x, half, 1, x - half); } else { DivUnique(x, half, 0, x); }
  }

  lemma DoubleHalf(x: nat, half: nat, bit: nat)
    requires half >= 1 && bit <= 1 && (if bit == 1 then half <= x < 2 * half else x < half)
    ensures Wrap(2 * x, 2 * half) == 2 * x - (if bit == 1 then 2 * half else 0)
    ensures half * bit <= x
  {
    WrapOf(2 * x, 2 * half, 2 * x - (if bit == 1 then 2 * half else 0), bit);
  }

  // One round of the loop keeps accumulator plus shifted multiplicand times remaining
  // multiplier, up to a multiple of the double word.
  lemma RoundValue(prod: int, w: nat, u: nat, v: nat, w': nat, u': nat, t: int, tw: int, tu: int, B2: nat) returns (t': int)
    requires prod == w + u * v + t * B2
    requires if v % 2 == 1 then w + u == w' + tw * B2 else w' == w
    requires 2 * u == u' + tu * B2
    ensures prod == w' + u' * (v / 2) + t' * B2
  {
    var h := v / 2;
    var a := if v % 2 == 1 then tw else 0;
    t' := t + a + tu * h;
    calc {
      w + u * v + t * B2;
      { assert v == 2 * h + v % 2; HalfProduct(u, h, v % 2); }
      w + (if v % 2 == 1 then u else 0) + (2 * u) * h + t * B2;
      w' + a * B2 + (u' + tu * B2) * h + t * B2;
      { Distribute(u', tu * B2, h); Swap(tu, B2, h); }
      w' + a * B2 + u' * h + (tu * h) * B2 + t * B2;
      { Distribute(t + a, tu * h, B2); Distribute(t, a, B2); }
      w' + u' * h + t' * B2;
    }
  }

  // The do-while loop: the full product of two words, by shifting and adding.
  method MultiplyLow(W: nat, u: nat, v: nat) returns (w_high: nat, w_low: nat)
    requires W >= 1 && u < Pow2(W) && v < Pow2(W)
    ensures w_high < Pow2(W) && w_low < Pow2(W)
    ensures Double(w_high, w_low, Pow2(W)) == u * v
  {
    hide Wrap, And, Or, Double;
    ghost var B := Pow2(W);
    var u_low: nat, v_low: nat := u, v;
    var w_high_tmp: nat := 0;
    w_high, w_low := 0, 0;
    ghost var t: int := 0;
    DoubleLow(u, B);
    DoubleLow(0, B);
    while true
      invariant w_high < B && w_low < B && u_low < B && w_high_tmp < B && v_low < B
      invariant u * v == Double(w_high, w_low, B) + Double(w_high_tmp, u_low, B) * v_low + t * (B * B)
      decreases v_low
    {
      ghost var w0, u0, v0 := Double(w_high, w_low, B), Double(w_high_tmp, u_low, B), v_low;
      ghost var tw := AddCarry(w_high, w_low, w_high_tmp, u_low, B);
      var new_w_low := Wrap(w_low + u_low, Pow2(W));
      var w_high_tmp2x := Wrap(2 * w_high_tmp, Pow2(W));
      ghost var tu := ShiftDouble(w_high_tmp, u_low, W);
      w_high_tmp := Wrap(w_high_tmp + w_high, Pow2(W));
      LowBit(v_low);
      if And(v_low, 1) != 0 {
        var carry := if new_w_low < w_low then 1 else 0;
        w_low := new_w_low;
        w_high := Wrap(carry + w_high_tmp, Pow2(W));
      }
      DivNonNegative(u_low, Pow2(W - 1));
      var u_low_msb := u_low / Pow2(W - 1);
      v_low := v_low / 2;
      u_low := Wrap(2 * u_low, Pow2(W));
      w_high_tmp := Or(u_low_msb, w_high_tmp2x);
      t := RoundValue(u * v, w0, u0, v0, Double(w_high, w_low, B), Double(w_high_tmp, u_low, B), t, tw, tu, B * B);
      if v_low == 0 { break; }
    }
    ExactProduct(u, v, B, w_high, w_low, t);
  }

  lemma DoubleLow(x: nat, B: nat)
    ensures Double(0, x, B) == x
  {}

  // The product of two words is a double word, so nothing was lost to wrapping.
  lemma ExactProduct(u: nat, v: nat, B: nat, high: nat, low: nat, t: int)
    requires u < B && v < B && high < B && low < B
    requires u * v == Double(high, low, B) + t * (B * B)
    ensures u * v == Double(high, low, B)
  {
    hide Double;
    DoubleBound(high, low, B);
    MulStrict(u, B, v, B);
    MulStrict(u, B - 1, v, B - 1);
    SmallMultiple(u * v, Double(high, low, B), t, B);
  }

  lemma SmallMultiple(x: nat, y: nat, t: int, B: nat)
    requires x <= (B - 1) * (B - 1) && y < B * B && x == y + t * (B * B) && B >= 1
    ensures t == 0
  {
    assert (B - 1) * (B - 1) < B * B;
    if t >= 1 { MulLe(B * B, 1, t); }
    if t <= -1 { MulLe(B * B, t, -1); }
  }

  // __multi3: the product of two double words, modulo the double word.
  method Multi3(W: nat, u_high: nat, u_low: nat, v_high: nat, v_low: nat) returns (w_high: nat, w_low: nat)
    requires W >= 1 && u_high < Pow2(W) && u_low < Pow2(W) && v_high < Pow2(W) && v_low < Pow2(W)
    ensures w_high < Pow2(W) && w_low < Pow2(W)
    ensures var B := Pow2(W);
            Double(w_high, w_low, B) == Wrap(Double(u_high, u_low, B) * Double(v_high, v_low, B), B * B)
  {
    hide Wrap, Double;
    w_high, w_low := MultiplyLow(W, u_low, v_low);
    ghost var h0 := w_high;
    var p: nat := 0;
    var q: nat := 0;
    WrapZero(v_low, Pow2(W));
    WrapZero(u_low, Pow2(W));
    if u_high != 0 {
      p := Muldi3(W, v_low, u_high);
      w_high := Wrap(w_high + p, Pow2(W));
    }
    ghost var h1 := w_high;
    if v_high != 0 {
      q := Muldi3(W, u_low, v_high);
      w_high := Wrap(w_high + q, Pow2(W));
    }
    CrossTerms(Pow2(W), u_high, u_low, v_high, v_low, h0, w_low, p, h1, q, w_high);
  }

  lemma WrapZero(x: nat, B: nat)
    requires B >= 1
    ensures Wrap(x * 0, B) == 0
  {
    WrapOf(0, B, 0, 0);
  }

  lemma CrossTerms(B: nat, uh: nat, ul: nat, vh: nat, vl: nat, h0: nat, low: nat, p: nat, h1: nat, q: nat, h2: nat)
    requires B >= 1 && low < B && h0 < B && h2 < B
    requires Double(h0, low, B) == ul * vl
    requires p == Wrap(vl * uh, B) && q == Wrap(ul * vh, B)
    requires h1 == Wrap(h0 + p, B) || (p == 0 && h1 == h0)
    requires h2 == Wrap(h1 + q, B) || (q == 0 && h2 == h1)
    ensures Double(h2, low, B) == Wrap(Double(uh, ul, B) * Double(vh, vl, B), B * B)
  {
    hide Wrap;
    var a := WrapMultiple(vl * uh, B);
    var b := WrapMultiple(ul * vh, B);
    var c := WrapMultiple(h0 + p, B);
    var d := WrapMultiple(h1 + q, B);
    var c' := if h1 == Wrap(h0 + p, B) then c else 0;
    var d' := if h2 == Wrap(h1 + q, B) then d else 0;
    var x := a + b + c' + d';
    assert h0 + vl * uh + ul * vh == h2 + x * B by {
      Distribute(a + b + c', d', B);
      Distribute(a + b, c', B);
      Distribute(a, b, B);
    }
    var t := x + uh * vh;
    calc {
      Double(uh, ul, B) * Double(vh, vl, B);
      { Distribute(uh * B, ul, vh * B + vl); Swap(uh, B, vh * B + vl); DotTwo(uh, vh, vl, B); DotTwo(ul, vh, vl, B); }
      ((uh * vh) * B + uh * vl) * B + (ul * vh) * B + ul * vl;
      { Distribute((uh * vh) * B, uh * vl, B); Swap(uh * vh, B, B); assert uh * vl == vl * uh; }
      (uh * vh) * (B * B) + (vl * uh) * B + (ul * vh) * B + h0 * B + low;
      { Distribute(h0 + vl * uh, ul * vh, B); Distribute(h0, vl * uh, B); }
      (uh * vh) * (B * B) + (h2 + x * B) * B + low;
      { Distribute(h2, x * B, B); Swap(x, B, B); }
      (uh * vh) * (B * B) + h2 * B + x * (B * B) + low;
      { Distribute(x, uh * vh, B * B); }
      Double(h2, low, B) + t * (B * B);
    }
    DoubleBound(h2, low, B);
    WrapOf(Double(uh, ul, B) * Double(vh, vl, B), B * B, Double(h2, low, B), t);
  }
}
