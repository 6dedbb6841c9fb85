/** Machine-word arithmetic on unbounded naturals: shifts, masks, single bits, bitwise
    operators, and the reversal of the low `n` bits of a word. Everything is defined by
    halving, one bit at a time. */
module Words {

  type byte = x: int | 0 <= x < 256

  function Pow2(n: nat): (r: nat)
    ensures r > 0
  {
    if n == 0 then 1 else 2 * Pow2(n - 1)
  }

  /** `x << n` */
  function Shl(x: nat, n: nat): nat {
    if n == 0 then x else 2 * Shl(x, n - 1)
  }

  /** `x >> n` */
  function Shr(x: nat, n: nat): nat
    decreases n, x
  {
    if n == 0 then x else Shr(x / 2, n - 1)
  }

  /** `x & ((1 << n) - 1)` */
  function Low(x: nat, n: nat): nat
    decreases n, x
  {
    if n == 0 then 0 else x % 2 + 2 * Low(x / 2, n - 1)
  }

  /** Bit `i` of `x`, least significant first. */
  function Bit(x: nat, i: nat): (b: nat)
    ensures b <= 1
    decreases i, x
  {
    if i == 0 then x % 2 else Bit(x / 2, i - 1)
  }

  /** `x & y` */
  function And(x: nat, y: nat): nat {
    if x == 0 || y == 0 then 0
    else (if x % 2 == 1 && y % 2 == 1 then 1 else 0) + 2 * And(x / 2, y / 2)
  }

  /** `x | y` */
  function Or(x: nat, y: nat): nat {
    if x == 0 then y
    else if y == 0 then x
    else (if x % 2 == 1 || y % 2 == 1 then 1 else 0) + 2 * Or(x / 2, y / 2)
  }

  /** `x ^ y` */
  function Xor(x: nat, y: nat): nat {
    if x == 0 then y
    else if y == 0 then x
    else (if x % 2 != y % 2 then 1 else 0) + 2 * Xor(x / 2, y / 2)
  }

  /** The low `n` bits of `x` in reverse order. */
  function Rev(x: nat, n: nat): nat
    decreases n, x
  {
    if n == 0 then 0 else (if x % 2 == 1 then Pow2(n - 1) else 0) + Rev(x / 2, n - 1)
  }

  // ----- shifts and masks -----

  lemma {:induction false} Pow2Mono(a: nat, b: nat)
    requires a <= b
    ensures Pow2(a) <= Pow2(b)
  {
    if a < b {
      Pow2Mono(a, b - 1);
    }
  }

  lemma Pow2Values()
    ensures Pow2(8) == 256 && Pow2(9) == 512 && Pow2(15) == 32768 && Pow2(16) == 65536
  {
  }

  lemma {:induction false} ShlPow2(a: nat, b: nat)
    ensures Shl(Pow2(a), b) == Pow2(a + b)
  {
    if b > 0 {
      ShlPow2(a, b - 1);
    }
  }

  lemma ShlOne(n: nat)
    ensures Shl(1, n) == Pow2(n)
  {
    ShlPow2(0, n);
  }

  lemma Shl8(x: nat)
    ensures Shl(x, 8) == 256 * x
  {
    assert Shl(x, 1) == 2 * x && Shl(x, 2) == 4 * x && Shl(x, 3) == 8 * x && Shl(x, 4) == 16 * x;
    assert Shl(x, 5) == 32 * x && Shl(x, 6) == 64 * x && Shl(x, 7) == 128 * x;
  }

  lemma {:induction false} ShlAdd(x: nat, y: nat, n: nat)
    ensures Shl(x + y, n) == Shl(x, n) + Shl(y, n)
  {
    if n > 0 {
      ShlAdd(x, y, n - 1);
    }
  }

  lemma {:induction false} ShlDouble(x: nat, n: nat)
    ensures Shl(2 * x, n) == Shl(x, n + 1)
  {
    if n > 0 {
      ShlDouble(x, n - 1);
    }
  }

  /** Shifting left keeps order, strictly. */
  lemma {:induction false} ShlOrder(x: nat, y: nat, n: nat)
    ensures Shl(x, n) <= Shl(y, n) <==> x <= y
  {
    if n > 0 {
      ShlOrder(x, y, n - 1);
    }
  }

  /** Comparing after a right shift is comparing with the left-shifted bound. */
  lemma {:induction false} ShrBelow(k: nat, n: nat, x: nat)
    ensures Shr(k, n) < x <==> k < Shl(x, n)
    decreases n
  {
    if n > 0 {
      ShrBelow(k / 2, n - 1, x);
    }
  }

  lemma {:induction false} LowBound(x: nat, n: nat)
    ensures Low(x, n) < Pow2(n) && Low(x, n) <= x
    ensures x < Pow2(n) ==> Low(x, n) == x
    decreases n
  {
    if n > 0 {
      LowBound(x / 2, n - 1);
    }
  }

  lemma {:induction false} SplitUnique(a: nat, y: nat, n: nat)
    requires a < Pow2(n)
    ensures Low(a + Shl(y, n), n) == a && Shr(a + Shl(y, n), n) == y
    decreases n
  {
    if n > 0 {
      assert (a + Shl(y, n)) / 2 == a / 2 + Shl(y, n - 1);
      SplitUnique(a / 2, y, n - 1);
    }
  }

  /** OR-ing a word below `2^n` with one shifted left by `n` is addition. */
  lemma {:induction false} OrShiftedIsSum(x: nat, y: nat, n: nat)
    requires x < Pow2(n)
    ensures Or(x, Shl(y, n)) == x + Shl(y, n)
    decreases n
  {
    if n > 0 && x != 0 {
      OrShiftedIsSum(x / 2, y, n - 1);
    }
  }

  lemma {:induction false} XorOnesIsComplement(x: nat, n: nat)
    requires x < Pow2(n)
    ensures Xor(x, Pow2(n) - 1) == Pow2(n) - 1 - x
    decreases n
  {
    if n > 0 {
      XorOnesIsComplement(x / 2, n - 1);
    }
  }

  // ----- single bits -----

  lemma {:induction false} BitShr(x: nat, s: nat, i: nat)
    ensures Bit(Shr(x, s), i) == Bit(x, i + s)
    decreases s
  {
    if s > 0 {
      BitShr(x / 2, s - 1, i);
    }
  }

  lemma {:induction false} BitShl(x: nat, s: nat, i: nat)
    ensures Bit(Shl(x, s), i) == if i < s then 0 else Bit(x, i - s)
    decreases s
  {
    if s > 0 {
      assert Shl(x, s) / 2 == Shl(x, s - 1) && Shl(x, s) % 2 == 0;
      if i > 0 {
        BitShl(x, s - 1, i - 1);
      }
    }
  }

  /** Two words below `2^n` with the same `n` bits are equal. */
  lemma {:induction false} BitExtensional(x: nat, y: nat, n: nat)
    requires x < Pow2(n) && y < Pow2(n)
    requires forall i: nat :: i < n ==> Bit(x, i) == Bit(y, i)
    ensures x == y
    decreases n
  {
    if n > 0 {
      assert Bit(x, 0) == Bit(y, 0);
      forall i: nat | i < n - 1 ensures Bit(x / 2, i) == Bit(y / 2, i) {
        assert Bit(x, i + 1) == Bit(y, i + 1);
      }
      BitExtensional(x / 2, y / 2, n - 1);
    }
  }

  lemma {:induction false} BitZero(i: nat)
    ensures Bit(0, i) == 0
  {
    if i > 0 {
      BitZero(i - 1);
    }
  }

  lemma {:induction false} BitAnd(x: nat, y: nat, i: nat)
    ensures Bit(And(x, y), i) == if Bit(x, i) == 1 && Bit(y, i) == 1 then 1 else 0
  {
    BitZero(i);
    if x != 0 && y != 0 && i > 0 {
      BitAnd(x / 2, y / 2, i - 1);
    }
  }

  lemma {:induction false} BitOr(x: nat, y: nat, i: nat)
    ensures Bit(Or(x, y), i) == if Bit(x, i) == 1 || Bit(y, i) == 1 then 1 else 0
  {
    BitZero(i);
    if x != 0 && y != 0 && i > 0 {
      BitOr(x / 2, y / 2, i - 1);
    }
  }

  lemma {:induction false} AndBound(x: nat, y: nat)
    ensures And(x, y) <= y
  {
    if x != 0 && y != 0 {
      AndBound(x / 2, y / 2);
    }
  }

  lemma {:induction false} OrBound(x: nat, y: nat)
    ensures Or(x, y) <= x + y
  {
    if x != 0 && y != 0 {
      OrBound(x / 2, y / 2);
    }
  }

  // ----- reversal -----

  lemma {:induction false} RevBound(x: nat, n: nat)
    ensures Rev(x, n) < Pow2(n)
    decreases n
  {
    if n > 0 {
      RevBound(x / 2, n - 1);
    }
  }

  lemma {:induction false} RevSnoc(x: nat, n: nat)
    ensures Rev(x, n + 1) == 2 * Rev(x, n) + Bit(x, n)
    decreases n
  {
    if n > 0 {
      RevSnoc(x / 2, n - 1);
    }
  }

  /** The top `n` bits of an `(n+m)`-bit reversal are the reversal of the low `n` bits. */
  lemma {:induction false} RevTop(x: nat, n: nat, m: nat)
    ensures Shr(Rev(x, n + m), m) == Rev(x, n)
    decreases m
  {
    if m > 0 {
      RevSnoc(x, n + m - 1);
      assert Rev(x, n + m) / 2 == Rev(x, n + (m - 1));
      RevTop(x, n, m - 1);
    }
  }

  /** The low `n+1` bits are the low `n` bits and bit `n` above them. */
  lemma {:induction false} LowSnoc(x: nat, n: nat)
    ensures Low(x, n + 1) == (if Bit(x, n) == 1 then Pow2(n) else 0) + Low(x, n)
    decreases n
  {
    if n > 0 {
      LowSnoc(x / 2, n - 1);
    }
  }

  /** Reversing twice gives back the low bits. */
  lemma {:induction false} RevInvolution(x: nat, n: nat)
    ensures Rev(Rev(x, n), n) == Low(x, n)
    decreases n
  {
    if n > 0 {
      RevSnoc(x, n - 1);
      LowSnoc(x, n - 1);
      RevInvolution(x, n - 1);
      assert Rev(x, n) / 2 == Rev(x, n - 1);
    }
  }

  lemma {:induction false} BitRev(x: nat, n: nat, i: nat)
    requires i < n
    ensures Bit(Rev(x, n), i) == Bit(x, n - 1 - i)
    decreases n
  {
    RevSnoc(x, n - 1);
    if i > 0 {
      BitRev(x, n - 1, i - 1);
    }
  }

  // ----- reversal of 16 bits by swapping groups -----

  /** One mask-and-swap layer: the bits under `hi` move down by `s`, those under `lo` up. */
  function SwapLayer(n: nat, hi: nat, lo: nat, s: nat): nat {
    Or(Shr(And(n, hi), s), Shl(And(n, lo), s))
  }

  /** Reversal of the low 16 bits by four mask-and-swap layers. */
  function BitReverse16(n: nat): nat {
    SwapLayer(SwapLayer(SwapLayer(SwapLayer(n, 0xAAAA, 0x5555, 1), 0xCCCC, 0x3333, 2), 0xF0F0, 0x0F0F, 4), 0xFF00, 0x00FF, 8)
  }

  function BitReverse(v: nat, bits: nat): nat
    requires bits <= 16
  {
    Shr(BitReverse16(v), 16 - bits)
  }

  /** Whether `i` lies in an even-numbered group of `s` positions. */
  predicate InEvenGroup(i: nat, s: nat)
    requires s > 0
  {
    i < s || !InEvenGroup(i - s, s)
  }

  /** The position that bit `i` of a layer of width `s` comes from. */
  function Flip(i: nat, s: nat): nat
    requires s > 0
  {
    if InEvenGroup(i, s) then i + s else i - s
  }

  /** `k` repetitions of `s` zeros above `s` ones. */
  function StripeMask(k: nat, s: nat): nat {
    if k == 0 then 0 else (Pow2(s) - 1) + Shl(StripeMask(k - 1, s), 2 * s)
  }

  lemma {:induction false} BitOnes(n: nat, i: nat)
    ensures Bit(Pow2(n) - 1, i) == if i < n then 1 else 0
    decreases n
  {
    if n == 0 {
      BitZero(i);
    } else if i > 0 {
      BitOnes(n - 1, i - 1);
    }
  }

  lemma {:induction false} BitConcat(a: nat, y: nat, n: nat, i: nat)
    requires a < Pow2(n)
    ensures Bit(a + Shl(y, n), i) == if i < n then Bit(a, i) else Bit(y, i - n)
    decreases n
  {
    if n > 0 && i > 0 {
      assert (a + Shl(y, n)) / 2 == a / 2 + Shl(y, n - 1);
      BitConcat(a / 2, y, n - 1, i - 1);
    }
  }

  lemma {:induction false} StripeMaskBit(k: nat, s: nat, i: nat)
    requires s > 0 && i < 2 * s * k
    ensures Bit(StripeMask(k, s), i) == if InEvenGroup(i, s) then 1 else 0
    decreases k
  {
    Pow2Mono(s, 2 * s);
    BitConcat(Pow2(s) - 1, StripeMask(k - 1, s), 2 * s, i);
    BitOnes(s, i);
    if i >= 2 * s {
      assert 2 * s * (k - 1) == 2 * s * k - 2 * s;
      StripeMaskBit(k - 1, s, i - 2 * s);
    }
  }

  /** A layer built from a stripe mask over 16 bits exchanges neighbouring groups of `s` bits. */
  lemma StripeLayerBit(n: nat, hi: nat, lo: nat, k: nat, s: nat, i: nat)
    requires s > 0 && 2 * s * k == 16 && i < 16
    requires lo == StripeMask(k, s) && hi == Shl(lo, s)
    ensures Bit(SwapLayer(n, hi, lo, s), i) == Bit(n, Flip(i, s))
  {
    StripeMaskBit(k, s, i);
    BitShl(lo, s, i + s);
    BitOr(Shr(And(n, hi), s), Shl(And(n, lo), s), i);
    BitShr(And(n, hi), s, i);
    BitShl(And(n, lo), s, i);
    BitAnd(n, hi, i + s);
    if i >= s {
      StripeMaskBit(k, s, i - s);
      BitAnd(n, lo, i - s);
    }
  }

  lemma StripeMaskValues()
    ensures StripeMask(8, 1) == 0x5555 && StripeMask(4, 2) == 0x3333
    ensures StripeMask(2, 4) == 0x0F0F && StripeMask(1, 8) == 0x00FF
    ensures Shl(0x5555, 1) == 0xAAAA && Shl(0x3333, 2) == 0xCCCC
    ensures Shl(0x0F0F, 4) == 0xF0F0 && Shl(0x00FF, 8) == 0xFF00
  {
    assert StripeMask(2, 1) == 5 && StripeMask(4, 1) == 0x55 && StripeMask(6, 1) == 0x555;
    assert StripeMask(2, 2) == 0x33;
  }

  lemma {:induction false} EvenGroups1(i: nat)
    ensures InEvenGroup(i, 1) == (i % 2 < 1)
  {
    if i >= 1 {
      EvenGroups1(i - 1);
    }
  }

  lemma {:induction false} EvenGroups2(i: nat)
    ensures InEvenGroup(i, 2) == (i % 4 < 2)
  {
    if i >= 2 {
      EvenGroups2(i - 2);
    }
  }

  lemma {:induction false} EvenGroups4(i: nat)
    ensures InEvenGroup(i, 4) == (i % 8 < 4)
  {
    if i >= 4 {
      EvenGroups4(i - 4);
    }
  }

  lemma FlipAll(i: nat)
    requires i < 16
    ensures Flip(i, 8) < 16 && Flip(Flip(i, 8), 4) < 16 && Flip(Flip(Flip(i, 8), 4), 2) < 16
    ensures Flip(Flip(Flip(Flip(i, 8), 4), 2), 1) == 15 - i
  {
    assert InEvenGroup(i, 8) == (i < 8);
    var i3 := Flip(i, 8);
    EvenGroups4(i3);
    var i2 := Flip(i3, 4);
    EvenGroups2(i2);
    EvenGroups1(Flip(i2, 2));
  }

  lemma BitReverse16Bit(n: nat, i: nat)
    requires i < 16
    ensures Bit(BitReverse16(n), i) == Bit(n, 15 - i)
  {
    FlipAll(i);
    StripeMaskValues();
    var n1 := SwapLayer(n, 0xAAAA, 0x5555, 1);
    var n2 := SwapLayer(n1, 0xCCCC, 0x3333, 2);
    var n3 := SwapLayer(n2, 0xF0F0, 0x0F0F, 4);
    StripeLayerBit(n3, 0xFF00, 0x00FF, 1, 8, i);
    StripeLayerBit(n2, 0xF0F0, 0x0F0F, 2, 4, Flip(i, 8));
    StripeLayerBit(n1, 0xCCCC, 0x3333, 4, 2, Flip(Flip(i, 8), 4));
    StripeLayerBit(n, 0xAAAA, 0x5555, 8, 1, Flip(Flip(Flip(i, 8), 4), 2));
  }

  lemma BitReverse16Bound(n: nat)
    ensures BitReverse16(n) < Pow2(16)
  {
    var n3 := SwapLayer(SwapLayer(SwapLayer(n, 0xAAAA, 0x5555, 1), 0xCCCC, 0x3333, 2), 0xF0F0, 0x0F0F, 4);
    var h, l := And(n3, 0xFF00), And(n3, 0x00FF);
    AndBound(n3, 0xFF00);
    AndBound(n3, 0x00FF);
    Pow2Values();
    StripeMaskValues();
    ShrBelow(h, 8, 0x100);
    assert Shl(0x100, 8) == 0x10000;
    ShlOrder(l, 0x00FF, 8);
    OrBound(Shr(h, 8), Shl(l, 8));
  }

  /** The mask-and-swap reversal is the reversal of the low 16 bits, for every word. */
  lemma BitReverse16IsRev(n: nat)
    ensures BitReverse16(n) == Rev(n, 16)
  {
    BitReverse16Bound(n);
    RevBound(n, 16);
    forall i: nat | i < 16 ensures Bit(BitReverse16(n), i) == Bit(Rev(n, 16), i) {
      BitReverse16Bit(n, i);
      BitRev(n, 16, i);
    }
    BitExtensional(BitReverse16(n), Rev(n, 16), 16);
  }

  /** Reversing `bits` bits of any word, as the decoder does it. */
  lemma BitReverseIsRev(v: nat, bits: nat)
    requires bits <= 16
    ensures BitReverse(v, bits) == Rev(v, bits)
  {
    BitReverse16IsRev(v);
    RevTop(v, bits, 16 - bits);
  }
}
