/** Canonical Huffman codes from code lengths (section 3.2.2 of RFC 1951), the Kraft sum of
    the lengths, and what it means for a symbol to be spelled in a bit stream. */
module Canonical {
  import opened Words
  import opened BitStream

  const MAX_LENGTH: nat := 15

  ghost predicate Lengths(lens: seq<nat>) {
    forall i :: 0 <= i < |lens| ==> lens[i] <= MAX_LENGTH
  }

  /** How many symbols have length `l`. */
  function Count(lens: seq<nat>, l: nat): nat {
    if lens == [] then 0
    else Count(lens[..|lens| - 1], l) + if lens[|lens| - 1] == l then 1 else 0
  }

  /** The first code of length `l`. */
  function First(lens: seq<nat>, l: nat): nat
    decreases l, lens
  {
    if l <= 1 then 0 else 2 * (First(lens, l - 1) + Count(lens, l - 1))
  }

  /** One past the last code of length `l`. */
  function Next(lens: seq<nat>, l: nat): nat {
    First(lens, l) + Count(lens, l)
  }

  /** How many symbols have a length from 1 to `l - 1`. */
  function FirstSymbol(lens: seq<nat>, l: nat): nat
    decreases l, lens
  {
    if l <= 1 then 0 else FirstSymbol(lens, l - 1) + Count(lens, l - 1)
  }

  /** How many smaller symbols have the same length as `s`. */
  function Rank(lens: seq<nat>, s: nat): nat
    requires s < |lens|
  {
    Count(lens[..s], lens[s])
  }

  function Code(lens: seq<nat>, s: nat): nat
    requires s < |lens|
  {
    First(lens, lens[s]) + Rank(lens, s)
  }

  /** The sum over used symbols of `2^-length`, in units of `2^-15`. */
  function KraftSum(lens: seq<nat>): nat
    requires Lengths(lens)
  {
    if lens == [] then 0
    else
      var l := lens[|lens| - 1];
      KraftSum(lens[..|lens| - 1]) + if l == 0 then 0 else Pow2(MAX_LENGTH - l)
  }

  ghost predicate Kraft(lens: seq<nat>) {
    Lengths(lens) && KraftSum(lens) <= Pow2(MAX_LENGTH)
  }

  // ----- counting -----

  lemma {:induction false} CountMonotone(lens: seq<nat>, i: nat, j: nat, l: nat)
    requires i <= j <= |lens|
    ensures Count(lens[..i], l) <= Count(lens[..j], l)
  {
    if i < j {
      CountMonotone(lens, i, j - 1, l);
      assert lens[..j][..j - 1] == lens[..j - 1];
    }
  }

  lemma CountStep(lens: seq<nat>, i: nat, l: nat)
    requires i < |lens|
    ensures Count(lens[..i + 1], l) == Count(lens[..i], l) + if lens[i] == l then 1 else 0
  {
    assert lens[..i + 1][..i] == lens[..i];
  }

  lemma RankBelowCount(lens: seq<nat>, s: nat)
    requires s < |lens|
    ensures Rank(lens, s) < Count(lens, lens[s])
  {
    CountStep(lens, s, lens[s]);
    CountMonotone(lens, s + 1, |lens|, lens[s]);
    assert lens[..|lens|] == lens;
  }

  lemma RankStrict(lens: seq<nat>, s: nat, t: nat)
    requires s < t < |lens| && lens[s] == lens[t]
    ensures Rank(lens, s) < Rank(lens, t)
  {
    CountStep(lens, s, lens[s]);
    CountMonotone(lens, s + 1, t, lens[s]);
  }

  /** The symbol of length `l` with rank `r`. */
  lemma {:induction false} SymbolWithRank(lens: seq<nat>, l: nat, r: nat) returns (s: nat)
    requires r < Count(lens, l)
    ensures s < |lens| && lens[s] == l && Rank(lens, s) == r
  {
    var n := |lens| - 1;
    if lens[n] == l && r == Count(lens[..n], l) {
      s := n;
    } else {
      s := SymbolWithRank(lens[..n], l, r);
      assert lens[..n][..s] == lens[..s];
    }
  }

  // ----- sorted positions -----

  /** The position of a used symbol when symbols are sorted by length, then by value. */
  function Position(lens: seq<nat>, s: nat): nat
    requires s < |lens|
  {
    FirstSymbol(lens, lens[s]) + Rank(lens, s)
  }

  lemma {:induction false} FirstSymbolMonotone(lens: seq<nat>, a: nat, b: nat)
    requires 1 <= a < b
    ensures FirstSymbol(lens, a) + Count(lens, a) <= FirstSymbol(lens, b)
    decreases b
  {
    if a + 1 < b {
      FirstSymbolMonotone(lens, a, b - 1);
    }
  }

  lemma PositionInjective(lens: seq<nat>, s: nat, t: nat)
    requires s < |lens| && t < |lens| && lens[s] > 0 && lens[t] > 0
    requires Position(lens, s) == Position(lens, t)
    ensures s == t
  {
    RankBelowCount(lens, s);
    RankBelowCount(lens, t);
    if lens[s] < lens[t] {
      FirstSymbolMonotone(lens, lens[s], lens[t]);
    } else if lens[t] < lens[s] {
      FirstSymbolMonotone(lens, lens[t], lens[s]);
    } else if s < t {
      RankStrict(lens, s, t);
    } else if t < s {
      RankStrict(lens, t, s);
    }
  }

  lemma {:induction false} FirstSymbolStep(lens: seq<nat>, l: nat)
    requires lens != []
    ensures var n := |lens| - 1;
            FirstSymbol(lens, l) == FirstSymbol(lens[..n], l) + if 1 <= lens[n] < l then 1 else 0
    decreases l
  {
    if l > 1 {
      FirstSymbolStep(lens, l - 1);
    }
  }

  lemma {:induction false} FirstSymbolBound(lens: seq<nat>, l: nat)
    ensures FirstSymbol(lens, l) <= |lens|
  {
    if lens == [] {
      FirstSymbolEmpty(l);
    } else {
      FirstSymbolBound(lens[..|lens| - 1], l);
      FirstSymbolStep(lens, l);
    }
  }

  lemma {:induction false} FirstSymbolEmpty(l: nat)
    ensures FirstSymbol([], l) == 0
  {
    if l > 1 {
      FirstSymbolEmpty(l - 1);
    }
  }

  lemma PositionBound(lens: seq<nat>, s: nat)
    requires s < |lens| && lens[s] > 0
    ensures Position(lens, s) < |lens|
  {
    RankBelowCount(lens, s);
    FirstSymbolBound(lens, lens[s] + 1);
  }

  // ----- the Kraft sum and room for codes -----

  /** The part of the Kraft sum that lengths up to `l` contribute. */
  function KraftUpTo(lens: seq<nat>, l: nat): nat
    requires Lengths(lens)
  {
    if lens == [] then 0
    else
      var k := lens[|lens| - 1];
      KraftUpTo(lens[..|lens| - 1], l) + if 1 <= k <= l then Pow2(MAX_LENGTH - k) else 0
  }

  lemma {:induction false} KraftUpToStep(lens: seq<nat>, l: nat)
    requires Lengths(lens) && 1 <= l <= MAX_LENGTH
    ensures KraftUpTo(lens, l) == KraftUpTo(lens, l - 1) + Shl(Count(lens, l), MAX_LENGTH - l)
  {
    if lens != [] {
      var n := |lens| - 1;
      KraftUpToStep(lens[..n], l);
      ShlAdd(Count(lens[..n], l), 1, MAX_LENGTH - l);
      ShlPow2(0, MAX_LENGTH - l);
    } else {
      ShlAdd(0, 0, MAX_LENGTH - l);
    }
  }

  lemma {:induction false} KraftUpToZero(lens: seq<nat>)
    requires Lengths(lens)
    ensures KraftUpTo(lens, 0) == 0
  {
    if lens != [] {
      KraftUpToZero(lens[..|lens| - 1]);
    }
  }

  lemma {:induction false} KraftUpToAll(lens: seq<nat>)
    requires Lengths(lens)
    ensures KraftUpTo(lens, MAX_LENGTH) == KraftSum(lens)
  {
    if lens != [] {
      KraftUpToAll(lens[..|lens| - 1]);
    }
  }

  /** The codes of lengths up to `l` fill exactly their share of the code space. */
  lemma {:induction false} KraftIsNext(lens: seq<nat>, l: nat)
    requires Lengths(lens) && 1 <= l <= MAX_LENGTH
    ensures KraftUpTo(lens, l) == Shl(Next(lens, l), MAX_LENGTH - l)
    decreases l
  {
    KraftUpToStep(lens, l);
    ShlAdd(First(lens, l), Count(lens, l), MAX_LENGTH - l);
    if l == 1 {
      KraftUpToZero(lens);
      ShlAdd(0, 0, MAX_LENGTH - l);
    } else {
      KraftIsNext(lens, l - 1);
      ShlDouble(Next(lens, l - 1), MAX_LENGTH - l);
    }
  }

  lemma {:induction false} NextGrows(lens: seq<nat>, a: nat, b: nat)
    requires 1 <= a < b
    ensures Shl(Next(lens, a), b - a) <= First(lens, b)
    decreases b
  {
    if a + 1 < b {
      NextGrows(lens, a, b - 1);
    }
  }

  /** Every length has room for its codes exactly when the Kraft sum is at most one. */
  lemma KraftIffRoom(lens: seq<nat>)
    requires Lengths(lens)
    ensures Kraft(lens) <==> forall l :: 1 <= l <= MAX_LENGTH ==> Next(lens, l) <= Pow2(l)
  {
    KraftUpToAll(lens);
    KraftIsNext(lens, MAX_LENGTH);
    assert Next(lens, MAX_LENGTH) == KraftSum(lens);
    if Kraft(lens) {
      forall l | 1 <= l <= MAX_LENGTH ensures Next(lens, l) <= Pow2(l) {
        RoomFromLonger(lens, l, MAX_LENGTH);
      }
    }
  }

  lemma RoomFromLonger(lens: seq<nat>, a: nat, b: nat)
    requires 1 <= a <= b && Next(lens, b) <= Pow2(b)
    ensures Next(lens, a) <= Pow2(a)
  {
    if a < b {
      NextGrows(lens, a, b);
      ShlPow2(a, b - a);
      ShlOrder(Next(lens, a), Pow2(a), b - a);
    }
  }

  lemma CodeFits(lens: seq<nat>, s: nat)
    requires Kraft(lens) && s < |lens| && lens[s] > 0
    ensures Code(lens, s) < Pow2(lens[s])
  {
    KraftIffRoom(lens);
    RankBelowCount(lens, s);
  }

  // ----- prefix freedom -----

  /** No code is a prefix of another symbol's code. */
  lemma PrefixFree(lens: seq<nat>, s: nat, t: nat)
    requires s < |lens| && t < |lens| && 0 < lens[s] <= lens[t]
    requires Shr(Code(lens, t), lens[t] - lens[s]) == Code(lens, s)
    ensures s == t
  {
    RankBelowCount(lens, s);
    if lens[s] == lens[t] {
      if s < t {
        RankStrict(lens, s, t);
      } else if t < s {
        RankStrict(lens, t, s);
      }
    } else {
      NextGrows(lens, lens[s], lens[t]);
      ShrBelow(Code(lens, t), lens[t] - lens[s], Next(lens, lens[s]));
    }
  }

  // ----- symbols in a bit stream -----

  /** Symbol `s` is spelled at `p`: its code appears there, most significant bit first. */
  ghost predicate Spelled(data: seq<byte>, p: nat, lens: seq<nat>, s: nat) {
    s < |lens| && lens[s] > 0 && Msb(data, p, lens[s]) == Code(lens, s)
  }

  /** At most one symbol is spelled at any place. */
  lemma SpelledUnique(data: seq<byte>, p: nat, lens: seq<nat>, s: nat, t: nat)
    requires Spelled(data, p, lens, s) && Spelled(data, p, lens, t)
    ensures s == t
  {
    if lens[s] <= lens[t] {
      MsbPrefix(data, p, lens[s], lens[t]);
      PrefixFree(lens, s, t);
    } else {
      MsbPrefix(data, p, lens[t], lens[s]);
      PrefixFree(lens, t, s);
    }
  }

  // ----- locating a left-aligned 16-bit window in the code space -----

  /** The end of the codes of length `l`, left-aligned in 16 bits. */
  function Limit(lens: seq<nat>, l: nat): nat
    requires l <= 16
  {
    if l == 0 then 0 else Shl(Next(lens, l), 16 - l)
  }

  lemma LimitIsFirst(lens: seq<nat>, l: nat)
    requires 1 <= l <= 16
    ensures Limit(lens, l - 1) == Shl(First(lens, l), 16 - l)
    ensures Limit(lens, l - 1) <= Limit(lens, l)
  {
    if l > 1 {
      ShlDouble(Next(lens, l - 1), 16 - l);
    } else {
      ShlAdd(0, 0, 15);
    }
    ShlOrder(First(lens, l), Next(lens, l), 16 - l);
  }

  lemma {:induction false} LimitMonotone(lens: seq<nat>, a: nat, b: nat)
    requires a <= b <= 16
    ensures Limit(lens, a) <= Limit(lens, b)
  {
    if a < b {
      LimitMonotone(lens, a, b - 1);
      LimitIsFirst(lens, b);
    }
  }

  /** A window between two limits starts with the code of a symbol of that length. */
  lemma Locate(lens: seq<nat>, k: nat, l: nat) returns (s: nat)
    requires 1 <= l <= 15 && Limit(lens, l - 1) <= k < Limit(lens, l)
    ensures s < |lens| && lens[s] == l && Shr(k, 16 - l) == Code(lens, s)
  {
    LimitIsFirst(lens, l);
    ShrBelow(k, 16 - l, First(lens, l));
    ShrBelow(k, 16 - l, Next(lens, l));
    s := SymbolWithRank(lens, l, Shr(k, 16 - l) - First(lens, l));
  }

  /** A window below some limit starts with the code of a symbol no longer than that. */
  lemma {:induction false} LocateBelow(lens: seq<nat>, k: nat, l: nat) returns (s: nat)
    requires l <= 15 && k < Limit(lens, l)
    ensures s < |lens| && 1 <= lens[s] <= l && Shr(k, 16 - lens[s]) == Code(lens, s)
  {
    if k < Limit(lens, l - 1) {
      s := LocateBelow(lens, k, l - 1);
    } else {
      s := Locate(lens, k, l);
    }
  }

  /** A window that starts with a symbol's code lies below that length's limit. */
  lemma BelowLimit(lens: seq<nat>, k: nat, s: nat)
    requires s < |lens| && 1 <= lens[s] <= 15 && Shr(k, 16 - lens[s]) == Code(lens, s)
    ensures k < Limit(lens, lens[s])
  {
    RankBelowCount(lens, s);
    ShrBelow(k, 16 - lens[s], Next(lens, lens[s]));
  }
}
