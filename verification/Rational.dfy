/** The conversion of a scale to a ratio of integers by continued fractions, on exact reals. */
module Rational {
  import opened Arith

  const SCALE: int := 33554432  // 2^25

  function Mul(a: int, b: int): int {
    a * b
  }

  /** The state of the refinement: remainders and the last two convergents. */
  datatype State = State(top: int, bot: int, numerLast: int, denomLast: int, numer: int, denom: int)

  function Start(top0: int): State {
    State(top0, SCALE, 0, 1, 1, 0)
  }

  function Refine(s: State): (r: State)
    requires s.bot > 0
    ensures 0 <= r.bot < s.bot
  {
    var est := s.top / s.bot;
    State(s.bot, s.top % s.bot, s.numer, s.denom, Mul(est, s.numer) + s.numerLast, Mul(est, s.denom) + s.denomLast)
  }

  /** Consecutive convergents have determinant `sign`; the remainders measure how far each is
      from the scaled input, on alternating sides; and both input terms are conserved. */
  ghost predicate Convergents(s: State, top0: int, sign: int) {
    && sign in {1, -1}
    && s.top >= 0 && s.bot >= 0 && s.numer >= 0 && s.denom >= 0 && s.numerLast >= 0 && s.denomLast >= 0
    && Mul(s.numer, s.denomLast) - Mul(s.denom, s.numerLast) == sign
    && Mul(top0, s.denom) - Mul(s.numer, SCALE) == (if sign == 1 then -s.bot else s.bot)
    && Mul(top0, s.denomLast) - Mul(s.numerLast, SCALE) == (if sign == 1 then s.top else -s.top)
    && Mul(s.numer, s.top) + Mul(s.numerLast, s.bot) == top0
    && Mul(s.denom, s.top) + Mul(s.denomLast, s.bot) == SCALE
  }

  lemma StartConverges(top0: int)
    requires top0 >= 0
    ensures Convergents(Start(top0), top0, 1)
  {
  }

  /** Every step keeps the invariant, flips the sign and lowers the remainder. */
  lemma RefineConverges(s: State, top0: int, sign: int)
    requires s.bot > 0 && Convergents(s, top0, sign)
    ensures Convergents(Refine(s), top0, -sign) && Refine(s).bot < s.bot && Refine(s).top > 0
  {
    var est, rem := s.top / s.bot, s.top % s.bot;
    Division(s.top, s.bot);
    hide Mul;
    Nonnegative(est, s.numer, s.numerLast);
    Nonnegative(est, s.denom, s.denomLast);
    Determinant(est, s.numer, s.numerLast, s.denom, s.denomLast);
    Distance(est, top0, s.numer, s.numerLast, s.denom, s.denomLast, s.bot);
    Conserved(est, s.numer, s.numerLast, s.top, s.bot, rem);
    Conserved(est, s.denom, s.denomLast, s.top, s.bot, rem);
  }

  lemma Division(a: int, b: int)
    requires a >= 0 && b > 0
    ensures a / b >= 0 && a == Mul(a / b, b) + a % b
  {
    var q := a / b;
    assert a == q * b + a % b;
    if q <= -1 {
      MulAtMost(q, b);
    }
  }

  lemma Nonnegative(est: int, x: int, last: int)
    requires est >= 0 && x >= 0 && last >= 0
    ensures Mul(est, x) + last >= 0
  {
    MulNonNegative(est, x);
  }

  lemma Determinant(est: int, n: int, nl: int, d: int, dl: int)
    ensures Mul(Mul(est, n) + nl, d) - Mul(Mul(est, d) + dl, n) == -(Mul(n, dl) - Mul(d, nl))
  {
    assert (est * n + nl) * d == est * (n * d) + nl * d;
    assert (est * d + dl) * n == est * (n * d) + dl * n;
  }

  /** The new distance is the old ones, combined as the convergents are. */
  lemma Distance(est: int, top0: int, n: int, nl: int, d: int, dl: int, bot: int)
    ensures var dist := Mul(top0, d) - Mul(n, SCALE);
            && Mul(top0, Mul(est, d) + dl) - Mul(Mul(est, n) + nl, SCALE) == Mul(est, dist) + (Mul(top0, dl) - Mul(nl, SCALE))
            && (dist == bot ==> Mul(est, dist) == Mul(est, bot))
            && (dist == -bot ==> Mul(est, dist) == -Mul(est, bot))
  {
    assert top0 * (est * d + dl) == est * (top0 * d) + top0 * dl;
    assert (est * n + nl) * SCALE == est * (n * SCALE) + nl * SCALE;
    assert est * (top0 * d - n * SCALE) == est * (top0 * d) - est * (n * SCALE);
    assert est * (-bot) == -(est * bot);
  }

  lemma Conserved(est: int, x: int, last: int, top: int, bot: int, rem: int)
    requires top == Mul(est, bot) + rem
    ensures Mul(Mul(est, x) + last, bot) + Mul(x, rem) == Mul(x, top) + Mul(last, bot)
  {
    assert (est * x + last) * bot == x * (est * bot) + last * bot;
    assert x * (est * bot) + x * rem == x * (est * bot + rem);
  }

  // ----- what the invariant gives -----

  /** No common divisor but one: every convergent is in lowest terms. */
  lemma LowestTerms(s: State, top0: int, sign: int, g: int, a: int, b: int)
    requires Convergents(s, top0, sign) && g > 0 && s.numer == Mul(g, a) && s.denom == Mul(g, b)
    ensures g == 1
  {
    var w := a * s.denomLast - b * s.numerLast;
    assert (g * a) * s.denomLast - (g * b) * s.numerLast == g * w;
    if w >= 1 {
      MulAtLeast(w, g);
    } else if w <= -1 {
      MulAtMost(w, g);
    }
  }

  /** Denominators never pass the scale, nor numerators the scaled input. */
  lemma ConvergentBounds(s: State, top0: int, sign: int)
    requires Convergents(s, top0, sign) && s.top > 0
    ensures s.denom <= SCALE && s.numer <= top0
  {
    MulNonNegative(s.denomLast, s.bot);
    MulNonNegative(s.numerLast, s.bot);
    MulNonNegative(s.denom, s.top - 1);
    MulNonNegative(s.numer, s.top - 1);
    assert s.denom * s.top == s.denom * (s.top - 1) + s.denom;
    assert s.numer * s.top == s.numer * (s.top - 1) + s.numer;
  }

  /** When the remainder is used up, the convergent is the scaled input exactly. */
  lemma ExhaustedIsExact(s: State, top0: int, sign: int)
    requires Convergents(s, top0, sign) && s.bot == 0
    ensures s.numer * SCALE == top0 * s.denom && s.denom > 0
  {
    if s.denom == 0 {
      assert s.denomLast * 0 == 0;
    }
  }

  // ----- the width of the numbers -----

  /** The state after `k` refinements, or after the last possible one. */
  function Refined(s: State, k: nat): State
    requires s.bot >= 0
    decreases k
  {
    if k == 0 || s.bot == 0 then s else Refined(Refine(s), k - 1)
  }

  predicate AtMost(s: State, limit: int) {
    && 0 <= s.top <= limit && 0 <= s.bot <= limit && 0 <= s.numer <= limit && 0 <= s.denom <= limit
    && 0 <= s.numerLast <= limit && 0 <= s.denomLast <= limit
  }

  /** No number of any state exceeds the larger of the scaled input and the scale: 64 bits hold
      them all if they hold the scaled input. */
  lemma {:induction false} NumbersFit(s: State, top0: int, sign: int, limit: int, k: nat)
    requires Convergents(s, top0, sign) && AtMost(s, limit) && top0 <= limit && SCALE <= limit
    ensures AtMost(Refined(s, k), limit)
    decreases k
  {
    if k > 0 && s.bot > 0 {
      RefineConverges(s, top0, sign);
      ConvergentBounds(Refine(s), top0, -sign);
      NumbersFit(Refine(s), top0, -sign, limit, k - 1);
    }
  }

  lemma RunFits(top0: int, limit: int, k: nat)
    requires 0 <= top0 <= limit && SCALE <= limit
    ensures AtMost(Refined(Start(top0), k), limit)
  {
    StartConverges(top0);
    NumbersFit(Start(top0), top0, 1, limit, k);
  }

  // ----- the routine -----

  const UINT32: int := 0x1_0000_0000
  const EPSILON: real := 1.0 / 16777216.0  // 2^-24

  function RealAbs(x: real): real {
    if x < 0.0 then -x else x
  }

  /** How far a ratio is from `f`. */
  function Error(numer: int, denom: int, f: real): real
    requires denom > 0
  {
    RealAbs(numer as real / denom as real - f)
  }

  function Scaled(f: real): int {
    (f * 33554432.0).Floor
  }

  lemma ScaledNonNegative(f: real)
    requires f >= 0.0
    ensures Scaled(f) >= 0
  {
    assert f * 33554432.0 >= 0.0;
  }

  /** Exhausting the remainder gives less than the accepted error: the routine's break for that
      case is never taken. */
  lemma ExhaustedIsAccurate(s: State, f: real, sign: int)
    requires Convergents(s, Scaled(f), sign) && s.bot == 0
    ensures s.denom > 0 && Error(s.numer, s.denom, f) < EPSILON
  {
    ExhaustedIsExact(s, Scaled(f), sign);
    SameRatio(s.numer as real, s.denom as real, Scaled(f) as real);
    FloorError(f);
  }

  lemma SameRatio(n: real, d: real, t: real)
    requires d > 0.0 && n * 33554432.0 == t * d
    ensures n / d == t / 33554432.0
  {
    assert (n / d) * d == n;
    assert ((n / d) * 33554432.0) * d == t * d;
    CancelReal((n / d) * 33554432.0, t, d);
  }

  lemma CancelReal(x: real, y: real, d: real)
    requires d > 0.0 && x * d == y * d
    ensures x == y
  {
    assert (x - y) * d == 0.0;
    assert x - y == 0.0;
  }

  lemma FloorError(f: real)
    ensures RealAbs(Scaled(f) as real / 33554432.0 - f) < EPSILON
  {
    var t := Scaled(f) as real;
    assert t <= f * 33554432.0 < t + 1.0;
  }

  /** The ratio has no common factor. */
  ghost predicate Reduced(numer: int, denom: int) {
    forall g, a, b :: g > 0 && numer == Mul(g, a) && denom == Mul(g, b) ==> g == 1
  }

  predicate AtLimit(s: State, limit: nat, limitDenom: bool) {
    (if limitDenom then s.denom else s.numer) >= limit
  }

  predicate Accurate(s: State, f: real) {
    s.denom > 0 && Error(s.numer, s.denom, f) < EPSILON
  }

  /** The first state, from `s` on, that meets the limit or is accurate or cannot be refined. */
  function Final(s: State, f: real, limit: nat, limitDenom: bool): State
    requires s.bot >= 0
    decreases s.bot
  {
    if AtLimit(s, limit, limitDenom) || Accurate(s, f) || s.bot == 0 then s
    else Final(Refine(s), f, limit, limitDenom)
  }

  /** The refinement ends by the limit or with an accurate ratio in lowest terms, whose
      denominator is at most the scale; it never ends by running out. */
  lemma {:induction false} FinalIsAccurate(s: State, f: real, limit: nat, limitDenom: bool, sign: int)
    requires Convergents(s, Scaled(f), sign) && (s.denom > 0 ==> s.top > 0)
    ensures var e := Final(s, f, limit, limitDenom);
            AtLimit(e, limit, limitDenom) ||
            (Accurate(e, f) && Reduced(e.numer, e.denom) && e.denom <= SCALE && e.numer <= Scaled(f))
    decreases s.bot
  {
    hide Mul;
    hide Scaled;
    hide Error;
    if AtLimit(s, limit, limitDenom) {
    } else if Accurate(s, f) {
      ConvergentBounds(s, Scaled(f), sign);
      ReducedConvergent(s, Scaled(f), sign);
    } else if s.bot == 0 {
      ExhaustedIsAccurate(s, f, sign);
    } else {
      RefineConverges(s, Scaled(f), sign);
      FinalIsAccurate(Refine(s), f, limit, limitDenom, -sign);
    }
  }

  /** The refinement stops at the first ratio less than 2^-24 off, or at the limit, and starts from
      the input in units of 2^-25, rounded down. */
  lemma StopsWhenAccurate(s: State, f: real, limit: nat, limitDenom: bool)
    requires s.bot >= 0
    ensures Scaled(f) as real <= f * 33554432.0 < Scaled(f) as real + 1.0
    ensures Start(Scaled(f)).top == Scaled(f) && Start(Scaled(f)).bot == 33554432
    ensures Accurate(s, f) <==> s.denom > 0 && -1.0 / 16777216.0 < s.numer as real / s.denom as real - f < 1.0 / 16777216.0
    ensures Accurate(s, f) || AtLimit(s, limit, limitDenom) ==> Final(s, f, limit, limitDenom) == s
    ensures !Accurate(s, f) && !AtLimit(s, limit, limitDenom) && s.bot > 0 ==>
              Final(s, f, limit, limitDenom) == Final(Refine(s), f, limit, limitDenom)
    ensures AtLimit(s, limit, limitDenom) <==> (if limitDenom then s.denom >= limit else s.numer >= limit)
  {
    hide Mul;
  }

  /** One refinement is a step of Euclid's algorithm and the recurrence of the convergents. */
  lemma RefinementStep(s: State)
    requires s.bot > 0
    ensures var r, e := Refine(s), s.top / s.bot;
            && r.top == s.bot && r.bot == s.top - e * s.bot && 0 <= r.bot < s.bot
            && r.numer == e * s.numer + s.numerLast && r.denom == e * s.denom + s.denomLast
            && r.numerLast == s.numer && r.denomLast == s.denom
  {
    assert s.top == s.top / s.bot * s.bot + s.top % s.bot;
  }

  function Times(f: real, limit: nat): real { f * limit as real }

  function Ratio(limit: nat, f: real): real
    requires f > 0.0
  {
    limit as real / f
  }

  /** The nearest integer, cut to 32 bits. */
  function Rounded(x: real): (n: int)
    ensures 0 <= n < UINT32
  {
    (x + 0.5).Floor % UINT32
  }

  /** The fallback is the nearest integer to the product or the quotient, while 32 bits hold it. */
  lemma FallbackNumbers(f: real, limit: nat)
    requires f > 0.0
    ensures Times(f, limit) == f * limit as real && Ratio(limit, f) * f == limit as real
    ensures forall x: real :: 0.0 <= x < 4294967295.0 ==> x - 0.5 < Rounded(x) as real <= x + 0.5
  {
    forall x: real | 0.0 <= x < 4294967295.0
      ensures x - 0.5 < Rounded(x) as real <= x + 0.5
    {
      var n := (x + 0.5).Floor;
      assert 0 <= n < UINT32;
    }
  }

  /** Finds a ratio within a float's precision of `f`, or falls back on the largest allowed
      numerator or denominator. */
  method DoubleToRational(f: real, limit: nat, limitDenom: bool) returns (ok: bool, numer: int, denom: int)
    requires f > 0.0 && limit < UINT32
    ensures var e := Final(Start(Scaled(f)), f, limit, limitDenom);
            if AtLimit(e, limit, limitDenom) then
              && (if limitDenom then denom == limit && numer == Rounded(Times(f, limit)) else numer == limit && denom == Rounded(Ratio(limit, f)))
              && (ok <==> denom > 0 && Error(numer, denom, f) < EPSILON)
            else
              && ok && numer == e.numer % UINT32 && denom == e.denom <= SCALE && e.numer <= Scaled(f)
              && Accurate(e, f) && Reduced(e.numer, e.denom)
  {
    hide Mul;
    hide Scaled;
    hide Final;
    hide Reduced;
    hide Error;
    ScaledNonNegative(f);
    StartConverges(Scaled(f));
    FinalIsAccurate(Start(Scaled(f)), f, limit, limitDenom, 1);
    hide Convergents;
    hide Times;
    hide Ratio;
    hide Rounded;
    ok, numer, denom := Search(f, limit, limitDenom);
    if ok {
      return;
    }
    if limitDenom {
      numer, denom := Rounded(Times(f, limit)), limit;
    } else {
      numer, denom := limit, Rounded(Ratio(limit, f));
    }
    if denom != 0 {
      ok := Error(numer, denom, f) < EPSILON;
    }
  }

  /** The refinement loop: an accurate ratio, or none below the limit. */
  method Search(f: real, limit: nat, limitDenom: bool) returns (found: bool, numer: int, denom: int)
    requires f > 0.0
    ensures var e := Final(Start(Scaled(f)), f, limit, limitDenom);
            && (found <==> !AtLimit(e, limit, limitDenom))
            && (found ==> numer == e.numer % UINT32 && denom == e.denom % UINT32)
  {
    ghost var sign := 1;
    ghost var e := Final(Start(Scaled(f)), f, limit, limitDenom);
    ScaledNonNegative(f);
    StartConverges(Scaled(f));
    var st := Start(Scaled(f));
    hide Mul;
    hide Scaled;
    while true
      invariant Convergents(st, Scaled(f), sign)
      invariant Final(st, f, limit, limitDenom) == e
      decreases st.bot
    {
      if (if limitDenom then st.denom else st.numer) >= limit {
        return false, 0, 0;
      }
      if st.denom != 0 {
        var err := RealAbs(st.numer as real / st.denom as real - f);
        if err < EPSILON {
          return true, st.numer % UINT32, st.denom % UINT32;
        }
      }
      if st.bot == 0 {
        ExhaustedIsAccurate(st, f, sign);
        assert false;
      }
      RefineConverges(st, Scaled(f), sign);
      st := Refine(st);
      sign := -sign;
    }
  }

  lemma ReducedConvergent(s: State, top0: int, sign: int)
    requires Convergents(s, top0, sign)
    ensures Reduced(s.numer, s.denom)
  {
    hide Mul;
    forall g, a, b | g > 0 && s.numer == Mul(g, a) && s.denom == Mul(g, b) ensures g == 1 {
      LowestTerms(s, top0, sign, g, a, b);
    }
  }
}
