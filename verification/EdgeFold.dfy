/** Weights that fall outside the image: how a gathered row of filter coefficients is rewritten so
    that it only names pixels of the image. Weights are exact reals. */
module EdgeFold {

  // ----- what a row of coefficients means -----

  /** The coefficients of pixels `n0 .. n1`, followed by unused ones. */
  datatype Row = Row(n0: int, n1: int, coeffs: seq<real>)

  predicate InWidth(r: Row) {
    r.n1 - r.n0 < |r.coeffs|
  }

  function Weight(r: Row, q: int): real
    requires InWidth(r)
  {
    if r.n0 <= q <= r.n1 then r.coeffs[q - r.n0] else 0.0
  }

  /** The weighted sum of the pixels `lo .. hi - 1`. */
  ghost function Blend(r: Row, pixel: int -> real, lo: int, hi: int): real
    requires InWidth(r)
    decreases hi - lo
  {
    if hi <= lo then 0.0 else Blend(r, pixel, lo, hi - 1) + Scaled(Weight(r, hi - 1), pixel(hi - 1))
  }

  function Scaled(weight: real, sample: real): real { weight * sample }

  /** The sum of the weights of the pixels `lo .. hi - 1`. */
  ghost function Total(r: Row, lo: int, hi: int): real
    requires InWidth(r)
    decreases hi - lo
  {
    if hi <= lo then 0.0 else Total(r, lo, hi - 1) + Weight(r, hi - 1)
  }

  /** The pixel that stands in for position `n` of an image `max` pixels long. */
  function Clamp(n: int, max: int): (q: int)
    requires max >= 1
    ensures 0 <= q < max
    ensures 0 <= n < max ==> q == n
  {
    if n < 0 then 0 else if n >= max then max - 1 else n
  }

  lemma ClampIsNearest(n: int, max: int, k: int)
    requires 0 <= k < max
    ensures Distance(n, Clamp(n, max)) <= Distance(n, k)
  {
  }

  function Distance(a: int, b: int): nat { if a >= b then a - b else b - a }

  /** The pixels, continued by their edge pixels. */
  function Extend(pixel: int -> real, size: int): int -> real
    requires size >= 1
  {
    n => pixel(Clamp(n, size))
  }

  function Min(a: int, b: int): int { if a <= b then a else b }
  function Max(a: int, b: int): int { if a >= b then a else b }

  /** Coefficients are stored from the range's first pixel on; outside the range there is no weight. */
  lemma StoredWeights(r: Row, k: nat)
    requires InWidth(r)
    ensures k <= r.n1 - r.n0 ==> Weight(r, r.n0 + k) == r.coeffs[k]
    ensures forall q :: q < r.n0 || q > r.n1 ==> Weight(r, q) == 0.0
  {
  }

  // ----- sums -----

  lemma {:induction false} TotalFront(r: Row, lo: int, hi: int)
    requires InWidth(r) && lo < hi
    ensures Total(r, lo, hi) == Weight(r, lo) + Total(r, lo + 1, hi)
    decreases hi - lo
  {
    if lo + 1 < hi {
      TotalFront(r, lo, hi - 1);
    }
  }

  lemma TotalOne(r: Row, q: int)
    requires InWidth(r)
    ensures Total(r, q, q + 1) == Weight(r, q)
  {
    assert Total(r, q, q) == 0.0;
  }

  lemma {:induction false} BlendSplit(r: Row, pixel: int -> real, lo: int, mid: int, hi: int)
    requires InWidth(r) && lo <= mid <= hi
    ensures Blend(r, pixel, lo, hi) == Blend(r, pixel, lo, mid) + Blend(r, pixel, mid, hi)
    decreases hi - mid
  {
    if mid < hi {
      BlendSplit(r, pixel, lo, mid, hi - 1);
    }
  }

  /** Rows and pixels that agree on a stretch have the same weighted sum there. */
  lemma {:induction false} BlendSame(r: Row, p: int -> real, s: Row, t: int -> real, lo: int, hi: int)
    requires InWidth(r) && InWidth(s)
    requires forall q :: lo <= q < hi ==> Weight(s, q) == Weight(r, q) && t(q) == p(q)
    ensures Blend(s, t, lo, hi) == Blend(r, p, lo, hi)
    decreases hi - lo
  {
    if lo < hi {
      BlendSame(r, p, s, t, lo, hi - 1);
    }
  }

  lemma {:induction false} BlendNothing(r: Row, p: int -> real, lo: int, hi: int)
    requires InWidth(r)
    requires forall q :: lo <= q < hi ==> Weight(r, q) == 0.0
    ensures Blend(r, p, lo, hi) == 0.0
    decreases hi - lo
  {
    if lo < hi {
      BlendNothing(r, p, lo, hi - 1);
    }
  }

  /** A pixel that alone is one shows its own weight: the sum says what every weight is. */
  lemma {:induction false} BlendImpulse(r: Row, p: int -> real, lo: int, hi: int, q: int)
    requires InWidth(r) && lo <= q < hi && p(q) == 1.0 && forall i :: lo <= i < hi && i != q ==> p(i) == 0.0
    ensures Blend(r, p, lo, hi) == Weight(r, q)
    decreases hi - lo
  {
    if q < hi - 1 {
      BlendImpulse(r, p, lo, hi - 1, q);
    } else {
      BlendDark(r, p, lo, hi - 1);
    }
  }

  lemma {:induction false} BlendDark(r: Row, p: int -> real, lo: int, hi: int)
    requires InWidth(r) && forall i :: lo <= i < hi ==> p(i) == 0.0
    ensures Blend(r, p, lo, hi) == 0.0
    decreases hi - lo
  {
    if lo < hi {
      BlendDark(r, p, lo, hi - 1);
    }
  }

  /** Where all positions show the same pixel, the weighted sum is the total weight of it. */
  lemma {:induction false} BlendConstant(r: Row, p: int -> real, v: real, lo: int, hi: int)
    requires InWidth(r)
    requires forall q :: lo <= q < hi ==> p(q) == v
    ensures Blend(r, p, lo, hi) == Scaled(Total(r, lo, hi), v)
    decreases hi - lo
  {
    if lo < hi {
      BlendConstant(r, p, v, lo, hi - 1);
    }
  }

  // ----- folding, on values -----

  /** `s` is `r` with all weight from `last` on gathered at `last`. */
  ghost predicate FoldedRight(r: Row, s: Row, last: int) {
    && InWidth(r) && InWidth(s)
    && s.n0 == Min(r.n0, last) && s.n1 == Min(r.n1, last) && |s.coeffs| == |r.coeffs|
    && (r.n1 <= last ==> s == r)
    && Weight(s, last) == Total(r, last, Max(r.n1, last) + 1)
    && forall q :: q < last ==> Weight(s, q) == Weight(r, q)
  }

  /** `s` is `r` with all weight up to pixel 0 gathered there. */
  ghost predicate FoldedLeft(r: Row, s: Row) {
    && InWidth(r) && InWidth(s)
    && s.n1 == r.n1 && s.n0 == Max(r.n0, 0) && |s.coeffs| == |r.coeffs|
    && Weight(s, 0) == Total(r, Min(r.n0, 0), 1)
    && forall q :: q > 0 ==> Weight(s, q) == Weight(r, q)
  }

  /** A row wholly left of the image. If there is no room for pixel 0 beside the row, all weights
      but the first are lost; and if the row ends before position -1, the unused coefficient in
      that place is taken for a weight. */
  ghost function OffWeight(r: Row): real
    requires InWidth(r) && r.n0 <= r.n1 < 0 && -r.n0 <= |r.coeffs|
  {
    if Roomy(r) then Total(r, r.n0, 0) + Stray(r) else Weight(r, r.n0)
  }

  predicate Roomy(r: Row) {
    1 - r.n0 <= |r.coeffs|
  }

  function Stray(r: Row): real
    requires r.n0 < 0 && -r.n0 <= |r.coeffs|
  {
    if r.n1 < -1 then r.coeffs[-1 - r.n0] else 0.0
  }

  ghost predicate FoldedOff(r: Row, s: Row)
    requires InWidth(r) && r.n0 <= r.n1 < 0 && -r.n0 <= |r.coeffs|
  {
    InWidth(s) && s.n0 == s.n1 == 0 && |s.coeffs| == |r.coeffs| && Weight(s, 0) == OffWeight(r)
  }

  /** What reading a row in clamp mode needs to stay inside it. */
  predicate Readable(r: Row, size: int) {
    InWidth(r) && r.n0 <= r.n1 && r.n0 <= size && -r.n0 <= |r.coeffs|
  }

  /** The weight that folding adds to pixel 0, or takes from it. */
  ghost function Excess(r: Row): real
    requires InWidth(r) && r.n0 <= r.n1 && -r.n0 <= |r.coeffs|
  {
    if r.n1 >= 0 then 0.0 else if Roomy(r) then Stray(r) else -Total(r, r.n0 + 1, 0)
  }

  /** A row that fills its width up to position -1 loses all weights but its first. */
  lemma NoRoomLosesWeight(x: real, y: real)
    ensures Excess(Row(-2, -1, [x, y])) == -y
  {
    TotalOne(Row(-2, -1, [x, y]), -1);
  }

  /** The excess: nothing for a row that reaches the image; with room for pixel 0, the unused
      coefficient that stands for position -1, if the row ends before that; without room, the
      weights after the first, which are lost. */
  lemma ExcessIs(r: Row)
    requires InWidth(r) && r.n0 <= r.n1 && -r.n0 <= |r.coeffs|
    ensures r.n1 >= 0 ==> Excess(r) == 0.0
    ensures r.n1 == -1 && 1 - r.n0 <= |r.coeffs| ==> Excess(r) == 0.0
    ensures r.n1 < -1 && 1 - r.n0 <= |r.coeffs| ==> Excess(r) == r.coeffs[-1 - r.n0]
    ensures r.n1 < 0 && 1 - r.n0 > |r.coeffs| ==> Excess(r) == Weight(r, r.n0) - Total(r, r.n0, 0)
  {
    if r.n1 < 0 {
      TotalFront(r, r.n0, 0);
    }
  }

  /** A range next to the image, or with room for pixel 0, is folded without loss. */
  lemma NoExcess(r: Row)
    requires InWidth(r) && r.n0 <= r.n1 && -r.n0 <= |r.coeffs| && r.n1 >= -1
    requires r.n1 >= 0 || r.n0 == -1 || Roomy(r)
    ensures Excess(r) == 0.0
  {
  }

  lemma FoldedRightBlend(r: Row, s: Row, pixel: int -> real, size: int, lo: int, hi: int)
    requires size >= 1 && FoldedRight(r, s, size - 1) && lo < size && hi > Max(r.n1, size - 1)
    ensures var p := Extend(pixel, size); Blend(s, p, lo, hi) == Blend(r, p, lo, hi)
  {
    hide Scaled;
    var p, last := Extend(pixel, size), size - 1;
    var end := Max(r.n1, last) + 1;
    forall q | last <= q < hi
      ensures p(q) == pixel(last)
    {
      assert Clamp(q, size) == last;
    }
    BlendSplit(r, p, lo, last, hi);
    BlendSplit(s, p, lo, last, hi);
    BlendSame(r, p, s, p, lo, last);
    BlendSplit(r, p, last, end, hi);
    BlendNothing(r, p, end, hi);
    BlendConstant(r, p, pixel(last), last, end);
    BlendSplit(s, p, last, size, hi);
    BlendNothing(s, p, size, hi);
    BlendConstant(s, p, pixel(last), last, size);
    TotalOne(s, last);
  }

  lemma FoldedLeftBlend(r: Row, s: Row, pixel: int -> real, size: int, lo: int, hi: int)
    requires size >= 1 && FoldedLeft(r, s) && lo <= Min(r.n0, 0) && hi >= 1
    ensures var p := Extend(pixel, size); Blend(s, p, lo, hi) == Blend(r, p, lo, hi)
  {
    hide Scaled;
    var p, start := Extend(pixel, size), Min(r.n0, 0);
    forall q | q <= 0
      ensures p(q) == pixel(0)
    {
      assert Clamp(q, size) == 0;
    }
    BlendSplit(r, p, lo, 1, hi);
    BlendSplit(s, p, lo, 1, hi);
    BlendSame(r, p, s, p, 1, hi);
    BlendSplit(r, p, lo, start, 1);
    BlendNothing(r, p, lo, start);
    BlendConstant(r, p, pixel(0), start, 1);
    BlendSplit(s, p, lo, 0, 1);
    BlendNothing(s, p, lo, 0);
    BlendConstant(s, p, pixel(0), 0, 1);
    TotalOne(s, 0);
  }

  /** Folding both sides: the row, now inside the image, gives every pixel row the weighted sum
      that the original gave the edge-extended pixel row. */
  lemma FoldKeepsSum(r: Row, m: Row, s: Row, pixel: int -> real, size: int)
    requires size >= 1 && r.n0 <= size && 0 <= r.n1 && r.n0 <= r.n1
    requires FoldedRight(r, m, size - 1) && FoldedLeft(m, s)
    ensures Blend(s, pixel, s.n0, s.n1 + 1) == Blend(r, Extend(pixel, size), r.n0, r.n1 + 1)
  {
    hide Scaled;
    hide Total;
    var p := Extend(pixel, size);
    var lo, hi := Min(r.n0, 0), Max(r.n1, size - 1) + 1;
    FoldedRightBlend(r, m, pixel, size, lo, hi);
    FoldedLeftBlend(m, s, pixel, size, lo, hi);
    WholeBlend(r, p, lo, hi);
    WholeBlend(s, p, lo, hi);
    assert forall q :: 0 <= q < size ==> p(q) == pixel(q);
    BlendSame(s, p, s, pixel, s.n0, s.n1 + 1);
  }

  /** Folding a row off the left edge: the sum is off by the excess. */
  lemma FoldOffSum(r: Row, s: Row, pixel: int -> real, size: int)
    requires size >= 1 && InWidth(r) && r.n0 <= r.n1 < 0 && -r.n0 <= |r.coeffs| && FoldedOff(r, s)
    ensures Blend(s, pixel, 0, 1) == Blend(r, Extend(pixel, size), r.n0, r.n1 + 1) + Scaled(Excess(r), pixel(0))
  {
    var p := Extend(pixel, size);
    forall q | q < 0
      ensures p(q) == pixel(0)
    {
      assert Clamp(q, size) == 0;
    }
    BlendConstant(r, p, pixel(0), r.n0, 0);
    WholeBlend(r, p, r.n0, 0);
    BlendConstant(s, pixel, pixel(0), 0, 1);
    TotalOne(s, 0);
    TotalFront(r, r.n0, 0);
    ScaledSum(Total(r, r.n0, 0), Excess(r), pixel(0));
  }

  lemma ScaledSum(a: real, b: real, v: real)
    ensures Scaled(a + b, v) == Scaled(a, v) + Scaled(b, v)
  {
  }

  /** The folded row weighs `pixel` as the original weighed its extension, but for the excess. */
  ghost predicate SameSum(r: Row, s: Row, pixel: int -> real, size: int)
    requires size >= 1 && Readable(r, size) && InWidth(s)
  {
    Blend(s, pixel, s.n0, s.n1 + 1) == Blend(r, Extend(pixel, size), r.n0, r.n1 + 1) + Scaled(Excess(r), pixel(0))
  }

  /** Every pixel row keeps its weighted sum exactly if there is no excess. */
  lemma KeptIff(r: Row, s: Row, size: int)
    requires size >= 1 && Readable(r, size) && InWidth(s)
    requires forall pixel: int -> real :: SameSum(r, s, pixel, size)
    ensures (forall pixel: int -> real ::
               Blend(s, pixel, s.n0, s.n1 + 1) == Blend(r, Extend(pixel, size), r.n0, r.n1 + 1)) <==> Excess(r) == 0.0
  {
    var ones := (q: int) => 1.0;
    assert SameSum(r, s, ones, size);
    assert Scaled(Excess(r), ones(0)) == Excess(r);
    if Excess(r) == 0.0 {
      forall pixel: int -> real
        ensures Blend(s, pixel, s.n0, s.n1 + 1) == Blend(r, Extend(pixel, size), r.n0, r.n1 + 1)
      {
        assert SameSum(r, s, pixel, size);
        assert Scaled(0.0, pixel(0)) == 0.0;
      }
    }
  }

  /** Positions without contributors add nothing to the weighted sum. */
  lemma WholeBlend(r: Row, p: int -> real, lo: int, hi: int)
    requires InWidth(r) && lo <= r.n0 <= r.n1 + 1 <= hi
    ensures Blend(r, p, lo, hi) == Blend(r, p, r.n0, r.n1 + 1)
  {
    BlendSplit(r, p, lo, r.n0, hi);
    BlendSplit(r, p, r.n0, r.n1 + 1, hi);
    BlendNothing(r, p, lo, r.n0);
    BlendNothing(r, p, r.n1 + 1, hi);
  }

  /** A row moved up behind a new first weight and a gap of zeros. */
  lemma WidenedLeft(r: Row, s: Row, c: real)
    requires InWidth(r) && InWidth(s) && s.n0 < r.n0 <= r.n1 == s.n1 && s.coeffs[0] == c
    requires forall i :: 1 <= i < r.n0 - s.n0 ==> s.coeffs[i] == 0.0
    requires forall i :: r.n0 - s.n0 <= i <= s.n1 - s.n0 ==> s.coeffs[i] == r.coeffs[i - (r.n0 - s.n0)]
    ensures forall q :: Weight(s, q) == Weight(r, q) + if q == s.n0 then c else 0.0
  {
  }

  /** The weights of a row off the left edge added up so far, down to position `i + 1`: with room
      for it they are at pixel 0, and the positions before it hold the row's own weights. */
  ghost predicate OffLeft(r: Row, s: Row, i: int)
    requires InWidth(r) && r.n0 <= r.n1 && -r.n0 <= |r.coeffs| && r.n0 < 0
  {
    if i == -1 || !Roomy(r) then s == r
    else
      && s.n0 == r.n0 && s.n1 == 0 && |s.coeffs| == |r.coeffs|
      && s.coeffs[-r.n0] == Total(r, i + 1, 0) + Stray(r)
      && forall k :: 0 <= k < -r.n0 ==> s.coeffs[k] == Weight(r, r.n0 + k)
  }

  // ----- the row in memory -----

  class GatherRow {
    var n0: int
    var n1: int
    const coeffs: array<real>

    constructor (n0: int, n1: int, coeffs: array<real>)
      ensures Now() == Row(n0, n1, coeffs[..]) && this.coeffs == coeffs
    {
      this.n0, this.n1, this.coeffs := n0, n1, coeffs;
    }

    ghost function Now(): Row
      reads this, coeffs
    {
      Row(n0, n1, coeffs[..])
    }

    /** The row has room for a range that also covers `px`. */
    predicate Fits(px: int)
      reads this
    {
      n1 < n0 || Max(n1, px) - Min(n0, px) < coeffs.Length
    }

    /** Adds weight at one pixel, widening the range as needed; does nothing if there is no room. */
    method InsertCoeff(px: int, c: real)
      requires InWidth(Now()) && coeffs.Length >= 1
      modifies this, coeffs
      ensures InWidth(Now())
      ensures !old(Fits(px)) ==> Now() == old(Now())
      ensures old(Fits(px)) ==>
                && n0 == (if old(n1 < n0) then px else Min(old(n0), px))
                && n1 == (if old(n1 < n0) then px else Max(old(n1), px))
                && forall q :: Weight(Now(), q) == Weight(old(Now()), q) + if q == px then c else 0.0
      ensures old(n1 < n0) ==> coeffs[..] == old(coeffs[..])[0 := c]
      ensures old(n0 <= px <= n1) ==>
                coeffs[..] == old(coeffs[..])[px - n0 := old(coeffs[..])[px - n0] + c]
    {
      if n1 < n0 {
        n0, n1 := px, px;
        coeffs[0] := c;
      } else if px <= n1 {
        if px < n0 {
          if n1 - px + 1 <= coeffs.Length {
            ShiftUp(px, c);
          }
        } else {
          coeffs[px - n0] := coeffs[px - n0] + c;
        }
      } else if px - n0 + 1 <= coeffs.Length {
        Append(px, c);
      }
    }

    /** Widens the range to the left. */
    method ShiftUp(px: int, c: real)
      requires px < n0 <= n1 && n1 - px < coeffs.Length
      modifies this, coeffs
      ensures n0 == px && n1 == old(n1)
      ensures forall q :: Weight(Now(), q) == Weight(old(Now()), q) + if q == px then c else 0.0
    {
      ghost var was := Now();
      SlideUp(n0 - px, n1 - n0 + 1);
      coeffs[0] := c;
      n0 := px;
      WidenedLeft(was, Now(), c);
    }

    /** Moves the first `count` coefficients up, last first, and clears the gap but for its start. */
    method SlideUp(o: nat, count: nat)
      requires 1 <= o && o + count <= coeffs.Length
      modifies coeffs
      ensures forall k :: 1 <= k < o ==> coeffs[k] == 0.0
      ensures forall k :: o <= k < o + count ==> coeffs[k] == old(coeffs[..])[k - o]
    {
      ghost var was := coeffs[..];
      var j := count - 1;
      while j >= 0
        invariant -1 <= j < count
        invariant forall k :: 0 <= k <= j ==> coeffs[k] == was[k]
        invariant forall k :: j + o < k < o + count ==> coeffs[k] == was[k - o]
      {
        coeffs[j + o] := coeffs[j];
        j := j - 1;
      }
      for i := 1 to o
        invariant forall k :: 1 <= k < i ==> coeffs[k] == 0.0
        invariant forall k :: o <= k < o + count ==> coeffs[k] == was[k - o]
      {
        coeffs[i] := 0.0;
      }
    }

    /** Widens the range to the right. */
    method Append(px: int, c: real)
      requires n0 <= n1 < px && px - n0 < coeffs.Length
      modifies this, coeffs
      ensures n0 == old(n0) && n1 == px
      ensures forall q :: Weight(Now(), q) == Weight(old(Now()), q) + if q == px then c else 0.0
    {
      var e := px - n0;
      ghost var was, first, last := coeffs[..], n0, n1;
      for j := n1 - n0 + 1 to e
        invariant n0 == first && n1 == last
        invariant forall i :: 0 <= i <= n1 - n0 ==> coeffs[i] == was[i]
        invariant forall i :: n1 - n0 < i < j ==> coeffs[i] == 0.0
      {
        coeffs[j] := 0.0;
      }
      coeffs[e] := c;
      n1 := px;
    }

    /** Clamp mode, right-hand side. A row that starts just past the image is emptied by the cut,
        and started anew by the first insertion. */
    method FoldRight(size: int)
      requires InWidth(Now()) && size >= 1 && n0 <= size && n0 <= n1
      modifies this, coeffs
      ensures FoldedRight(old(Now()), Now(), size - 1)
    {
      ghost var was := Now();
      ghost var last := size - 1;
      TotalOne(was, last);
      if n1 > size - 1 {
        var start, end := n0, n1;
        ghost var slot := if start < size then last - start else 0;
        n1 := size - 1;
        for i := size to end + 1
          invariant n1 == last && n0 == (if start == size == i then start else Min(start, last))
          invariant forall k :: 0 <= k < coeffs.Length && k != slot ==> coeffs[k] == was.coeffs[k]
          invariant coeffs[slot] == if start == size == i then was.coeffs[slot] else Total(was, last, i)
        {
          InsertCoeff(Clamp(i, size), coeffs[i - start]);
        }
      }
    }

    /** Clamp mode, left-hand side: the weight of the first position is added last. */
    method FoldLeft(size: int)
      requires InWidth(Now()) && size >= 1 && n0 <= n1 < size && -n0 <= coeffs.Length
      modifies this, coeffs
      ensures old(n1) >= 0 ==> FoldedLeft(old(Now()), Now())
      ensures old(n1) < 0 ==> FoldedOff(old(Now()), Now())
    {
      hide Total;
      ghost var was := Now();
      if n0 < 0 {
        var c := AccumulateLeft(size);
        var saved, savedCoeff := n0, coeffs[c];
        if was.n1 >= 0 {
          TotalFront(was, n0, 1);
        } else {
          TotalFront(was, n0, 0);
          TotalOne(was, -1);
        }
        n0 := 0;
        SlideDown(-saved);
        InsertCoeff(Clamp(saved, size), savedCoeff);
      } else {
        TotalOne(was, 0);
      }
    }

    /** Adds the weights left of the image to pixel 0, from the nearest to the last but one, and
        returns where the remaining one is. */
    method AccumulateLeft(size: int) returns (c: int)
      requires InWidth(Now()) && size >= 1 && n0 < 0 && n0 <= n1 && -n0 <= coeffs.Length
      modifies this, coeffs
      ensures c == 0 && n0 == old(n0)
      ensures old(n1) >= 0 ==> n1 == old(n1) && coeffs[..] == old(coeffs[..])[-n0 := Total(old(Now()), n0 + 1, 1)]
      ensures old(n1) < 0 ==> OffLeft(old(Now()), Now(), n0)
    {
      ghost var was := Now();
      c := -(n0 + 1);
      var i := -1;
      TotalOne(was, 0);
      TotalOne(was, -1);
      while i > n0
        invariant n0 == was.n0 && n0 <= i <= -1 && c == i - n0
        invariant was.n1 >= 0 ==> n1 == was.n1 && coeffs[..] == was.coeffs[-n0 := Total(was, i + 1, 1)]
        invariant was.n1 < 0 ==> OffLeft(was, Now(), i)
      {
        if was.n1 >= 0 {
          TotalFront(was, i, 1);
        } else {
          TotalFront(was, i, 0);
        }
        AccumulateOne(size, i, c, was);
        c := c - 1;
        i := i - 1;
      }
    }

    method AccumulateOne(size: int, i: int, c: int, ghost was: Row)
      requires size >= 1 && n0 < i <= -1 && c == i - n0 && n0 == was.n0 && was.n0 <= was.n1
      requires InWidth(was) && -n0 <= |was.coeffs| == coeffs.Length
      requires was.n1 >= 0 ==> n1 == was.n1 && coeffs[..] == was.coeffs[-n0 := Total(was, i + 1, 1)]
      requires was.n1 >= 0 ==> Total(was, i, 1) == Weight(was, i) + Total(was, i + 1, 1)
      requires was.n1 < 0 ==> OffLeft(was, Now(), i) && Total(was, i, 0) == Weight(was, i) + Total(was, i + 1, 0)
      modifies this, coeffs
      ensures n0 == was.n0
      ensures was.n1 >= 0 ==> n1 == was.n1 && coeffs[..] == was.coeffs[-n0 := Total(was, i, 1)]
      ensures was.n1 < 0 ==> OffLeft(was, Now(), i - 1)
    {
      if i == -1 {
        assert Total(was, 0, 0) == 0.0;
      }
      hide Total;
      InsertCoeff(Clamp(i, size), coeffs[c]);
      if was.n1 < 0 && Roomy(was) && i == -1 {
        assert coeffs[-n0] == Weight(Now(), 0);
        forall k | 0 <= k < -n0
          ensures coeffs[k] == Weight(was, n0 + k)
        {
          assert coeffs[k] == Weight(Now(), n0 + k);
        }
      }
    }

    method SlideDown(skips: nat)
      requires n0 == 0 && n1 + skips < coeffs.Length
      modifies coeffs
      ensures forall k :: 0 <= k <= n1 ==> coeffs[k] == old(coeffs[..])[k + skips]
      ensures n1 < 0 ==> coeffs[..] == old(coeffs[..])
    {
      ghost var was := coeffs[..];
      var i := 0;
      while i <= n1
        invariant 0 <= i && (i == 0 || i <= n1 + 1)
        invariant forall k :: 0 <= k < i ==> coeffs[k] == was[k + skips]
        invariant forall k :: i <= k < coeffs.Length ==> coeffs[k] == was[k]
      {
        coeffs[i] := coeffs[i + skips];
        i := i + 1;
      }
    }

    /** Clamp mode: for every pixel row, the folded coefficients weigh it as the original ones
        weighed the row extended beyond its edges, but for the excess of rows off the left edge;
        and they lie inside the image. */
    method FoldClamp(size: int)
      requires size >= 1 && Readable(Now(), size)
      modifies this, coeffs
      ensures InWidth(Now()) && 0 <= n0 <= n1 < size
      ensures forall pixel: int -> real :: SameSum(old(Now()), Now(), pixel, size)
    {
      ghost var was := Now();
      FoldRight(size);
      ghost var mid := Now();
      FoldLeft(size);
      ghost var end := Now();
      forall pixel: int -> real
        ensures SameSum(was, end, pixel, size)
      {
        if was.n1 >= 0 {
          FoldKeepsSum(was, mid, end, pixel, size);
        } else {
          FoldOffSum(was, end, pixel, size);
        }
      }
    }

    /** Zero mode: exactly the weights inside the image remain. */
    method CutZero(size: int)
      requires InWidth(Now()) && size >= 1
      modifies this, coeffs
      ensures InWidth(Now())
      ensures n0 <= n1 ==> 0 <= n0 && n1 < size
      ensures forall q :: Weight(Now(), q) == if 0 <= q < size then Weight(old(Now()), q) else 0.0
    {
      if n1 > size - 1 {
        n1 := size - 1;
      }
      if n0 < 0 {
        var skips := -n0;
        n0 := 0;
        if n1 - n0 + 1 > 0 {
          SlideDown(skips);
        }
      }
    }

    /** Drops trailing zero weights and clears what is unused; no weight changes. */
    method Trim()
      requires InWidth(Now())
      modifies this, coeffs
      ensures InWidth(Now()) && n0 == old(n0) && n1 <= old(n1)
      ensures forall q :: Weight(Now(), q) == Weight(old(Now()), q)
      ensures old(n0 <= n1) ==>
                && n1 >= n0 - 1
                && (n0 <= n1 ==> Weight(Now(), n1) != 0.0)
                && forall k :: n1 - n0 < k < coeffs.Length ==> coeffs[k] == 0.0
      ensures old(n1 < n0) ==> Now() == old(Now())
    {
      ghost var was := Now();
      if n0 <= n1 {
        var diff := n1 - n0 + 1;
        while diff != 0 && coeffs[diff - 1] == 0.0
          invariant 0 <= diff <= n1 - n0 + 1
          invariant forall k :: diff <= k <= n1 - n0 ==> coeffs[k] == 0.0
        {
          diff := diff - 1;
        }
        n1 := n0 + diff - 1;
        for i := diff to coeffs.Length
          invariant n0 == was.n0 && n1 == n0 + diff - 1
          invariant forall k :: 0 <= k < diff ==> coeffs[k] == was.coeffs[k]
          invariant forall k :: diff <= k < i ==> coeffs[k] == 0.0
        {
          coeffs[i] := 0.0;
        }
      }
    }

    /** One row of the clean-up in clamp mode: folded, then trimmed. */
    method CleanUpClamp(size: int)
      requires size >= 1 && Readable(Now(), size)
      modifies this, coeffs
      ensures InWidth(Now()) && 0 <= n0 && n0 - 1 <= n1 < size
      ensures n0 <= n1 ==> Weight(Now(), n1) != 0.0
      ensures forall k :: n1 - n0 < k < coeffs.Length ==> coeffs[k] == 0.0
      ensures forall pixel: int -> real :: SameSum(old(Now()), Now(), pixel, size)
    {
      hide Scaled;
      hide Total;
      ghost var was := Now();
      FoldClamp(size);
      ghost var mid := Now();
      Trim();
      ghost var end := Now();
      forall pixel: int -> real
        ensures SameSum(was, end, pixel, size)
      {
        BlendSame(mid, pixel, end, pixel, mid.n0, mid.n1 + 1);
        WholeBlend(end, pixel, mid.n0, mid.n1 + 1);
        assert SameSum(was, mid, pixel, size);
      }
    }
  }
}
