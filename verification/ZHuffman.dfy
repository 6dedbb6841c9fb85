/** The table-driven Huffman decoder: a 512-entry table indexed by the next 9 bits, and the
    left-aligned limits that resolve longer codes. */
module ZHuffman {
  import opened Words
  import opened Canonical

  const FAST_BITS: nat := 9
  const FAST_SIZE: nat := 512
  const MAX_SYMBOLS: nat := 288

  /** Symbol `s` has a short code, and the word `w` (first bit least significant) starts with it. */
  predicate FastMatch(lens: seq<nat>, s: nat, w: nat) {
    s < |lens| && 0 < lens[s] <= FAST_BITS && Rev(w, lens[s]) == Code(lens, s)
  }

  /** The table answers for exactly the short codes among the first `n` symbols. */
  ghost predicate FastTable(fast: seq<nat>, lens: seq<nat>, n: nat) {
    && |fast| == FAST_SIZE
    && (forall w, s :: 0 <= w < FAST_SIZE && 0 <= s < n && FastMatch(lens, s, w) ==> fast[w] == lens[s] * 512 + s)
    && (forall w :: 0 <= w < FAST_SIZE && fast[w] != 0 ==>
                      && fast[w] % 512 < n
                      && FastMatch(lens, fast[w] % 512, w)
                      && fast[w] / 512 == lens[fast[w] % 512])
  }

  /** The used symbols below `n` sit at their sorted positions. */
  ghost predicate SortedTable(size: seq<nat>, value: seq<nat>, lens: seq<nat>, n: nat)
    requires n <= |lens|
  {
    && |size| == |value| == MAX_SYMBOLS
    && forall s :: 0 <= s < n && lens[s] > 0 ==>
                     && Position(lens, s) < MAX_SYMBOLS
                     && size[Position(lens, s)] == lens[s]
                     && value[Position(lens, s)] == s
  }

  /** The per-length tables, up to (not including) length `n`. */
  ghost predicate LengthTables(firstcode: seq<nat>, firstsymbol: seq<nat>, maxcode: seq<nat>, lens: seq<nat>, n: nat) {
    && |firstcode| == |firstsymbol| == 16 && |maxcode| == 17 && n <= 16
    && forall l :: 1 <= l < n ==>
                     && firstcode[l] == First(lens, l)
                     && firstsymbol[l] == FirstSymbol(lens, l)
                     && maxcode[l] == Limit(lens, l)
  }

  ghost predicate FirstCodes(nextCode: seq<nat>, lens: seq<nat>, n: nat) {
    |nextCode| == 16 && n <= 16 && forall l :: 1 <= l < n ==> nextCode[l] == First(lens, l)
  }

  /** Each length's next free code once the first `i` symbols have theirs. */
  ghost predicate NextCodes(nextCode: seq<nat>, lens: seq<nat>, i: nat)
    requires i <= |lens|
  {
    |nextCode| == 16 && forall l :: 1 <= l < 16 ==> nextCode[l] == First(lens, l) + Count(lens[..i], l)
  }

  class Huffman {
    const fast: array<nat>
    const firstcode: array<nat>
    const maxcode: array<nat>
    const firstsymbol: array<nat>
    const size: array<nat>
    const value: array<nat>
    ghost var lens: seq<nat>

    constructor ()
      ensures Shape()
      ensures fresh(Tables())
    {
      fast := new nat[FAST_SIZE](_ => 0);
      firstcode := new nat[16](_ => 0);
      maxcode := new nat[17](_ => 0);
      firstsymbol := new nat[16](_ => 0);
      size := new nat[MAX_SYMBOLS](_ => 0);
      value := new nat[MAX_SYMBOLS](_ => 0);
      lens := [];
    }

    ghost function Tables(): set<object> {
      {fast, firstcode, maxcode, firstsymbol, size, value}
    }

    ghost predicate Shape() {
      && fast.Length == FAST_SIZE && firstcode.Length == 16 && maxcode.Length == 17
      && firstsymbol.Length == 16 && size.Length == MAX_SYMBOLS && value.Length == MAX_SYMBOLS
      && fast != firstcode && fast != maxcode && fast != firstsymbol && fast != size && fast != value
      && firstcode != maxcode && firstcode != firstsymbol && firstcode != size && firstcode != value
      && maxcode != firstsymbol && maxcode != size && maxcode != value
      && firstsymbol != size && firstsymbol != value && size != value
    }

    /** The tables decode the canonical code of `lens`. */
    ghost predicate Built()
      reads this, Tables()
    {
      && Shape()
      && |lens| <= MAX_SYMBOLS && Kraft(lens)
      && FastTable(fast[..], lens, |lens|)
      && SortedTable(size[..], value[..], lens, |lens|)
      && LengthTables(firstcode[..], firstsymbol[..], maxcode[..], lens, 16)
      && maxcode[16] == 0x10000
    }

    /** Enters one short code at every index whose low bits spell it. */
    method FillFast(code: nat, s: nat, entry: nat)
      requires Shape() && 0 < s <= FAST_BITS && code < Pow2(s)
      modifies fast
      ensures forall w :: 0 <= w < FAST_SIZE ==> fast[w] == if Rev(w, s) == code then entry else old(fast[w])
    {
      FirstSpelling(code, s);
      ShlPow2(0, s);
      var j := BitReverse(code, s);
      while j < FAST_SIZE
        invariant Rev(j, s) == code
        invariant forall w :: 0 <= w < FAST_SIZE ==> fast[w] == if w < j && Rev(w, s) == code then entry else old(fast[w])
        decreases FAST_SIZE - j
      {
        fast[j] := entry;
        NextSpelling(j, s);
        j := j + Shl(1, s);
      }
    }

    /** Builds the tables for the code lengths `sizelist`; fails exactly when the lengths
        oversubscribe the code space. */
    method Build(sizelist: seq<nat>) returns (ok: bool)
      requires Shape() && Lengths(sizelist) && |sizelist| <= MAX_SYMBOLS
      modifies this, Tables()
      ensures ok <==> Kraft(sizelist)
      ensures ok ==> Built() && lens == sizelist
    {
      for i := 0 to FAST_SIZE
        invariant forall w :: 0 <= w < i ==> fast[w] == 0
      {
        fast[i] := 0;
      }
      var sizes := CountSizes(sizelist);
      for i := 1 to 16
      {
        if sizes[i] > Shl(1, i) {
          ShlPow2(0, i);
          NoRoom(sizelist, i);
          return false;
        }
      }
      lens := sizelist;
      var nextCode := new nat[16](_ => 0);
      ok := AssignCodes(sizelist, sizes, nextCode);
      if ok {
        ghost var fc, fs, mc := firstcode[..], firstsymbol[..], maxcode[..];
        EnterSymbols(sizelist, nextCode);
        assert firstcode[..] == fc && firstsymbol[..] == fs && maxcode[..] == mc;
      }
    }

    static method CountSizes(sizelist: seq<nat>) returns (sizes: array<nat>)
      requires Lengths(sizelist)
      ensures fresh(sizes) && sizes.Length == 17 && sizes[0] == 0
      ensures forall l :: 1 <= l < 17 ==> sizes[l] == Count(sizelist, l)
    {
      sizes := new nat[17](_ => 0);
      for i := 0 to |sizelist|
        invariant forall l :: 0 <= l < 17 ==> sizes[l] == Count(sizelist[..i], l)
      {
        var k := sizelist[i];
        forall l: nat | l < 17 ensures Count(sizelist[..i + 1], l) == Count(sizelist[..i], l) + if k == l then 1 else 0 {
          CountStep(sizelist, i, l);
        }
        sizes[k] := sizes[k] + 1;
      }
      assert sizelist[..|sizelist|] == sizelist;
      sizes[0] := 0;
    }

    /** Canonical first codes, first symbols and limits, length by length. */
    method AssignCodes(sizelist: seq<nat>, sizes: array<nat>, nextCode: array<nat>) returns (ok: bool)
      requires Shape() && Lengths(sizelist)
      requires sizes.Length == 17 && nextCode.Length == 16
      requires sizes !in Tables() && nextCode !in Tables() && sizes != nextCode
      requires forall l :: 1 <= l < 17 ==> sizes[l] == Count(sizelist, l)
      modifies firstcode, firstsymbol, maxcode, nextCode
      ensures ok <==> Kraft(sizelist)
      ensures ok ==> LengthTables(firstcode[..], firstsymbol[..], maxcode[..], sizelist, 16) && maxcode[16] == 0x10000
      ensures ok ==> FirstCodes(nextCode[..], sizelist, 16)
    {
      var code, k := 0, 0;
      for i := 1 to 16
        invariant code == First(sizelist, i) && k == FirstSymbol(sizelist, i)
        invariant i > 1 ==> Next(sizelist, i - 1) <= Pow2(i - 1)
        invariant FirstCodes(nextCode[..], sizelist, i)
        invariant LengthTables(firstcode[..], firstsymbol[..], maxcode[..], sizelist, i)
      {
        var n := sizes[i];
        assert n == Count(sizelist, i);
        var fits := AssignLength(sizelist, i, code, k, n, nextCode);
        if !fits {
          NoRoom(sizelist, i);
          return false;
        }
        code := (code + n) * 2;
        k := k + n;
      }
      RoomEnough(sizelist);
      maxcode[16] := 0x10000;
      return true;
    }

    method AssignLength(ghost sizelist: seq<nat>, i: nat, code: nat, k: nat, n: nat, nextCode: array<nat>) returns (fits: bool)
      requires Shape() && 1 <= i < 16 && nextCode.Length == 16 && nextCode !in Tables()
      requires n == Count(sizelist, i) && code == First(sizelist, i) && k == FirstSymbol(sizelist, i)
      requires i > 1 ==> Next(sizelist, i - 1) <= Pow2(i - 1)
      requires FirstCodes(nextCode[..], sizelist, i)
      requires LengthTables(firstcode[..], firstsymbol[..], maxcode[..], sizelist, i)
      modifies firstcode, firstsymbol, maxcode, nextCode
      ensures fits <==> Next(sizelist, i) <= Pow2(i)
      ensures fits ==> FirstCodes(nextCode[..], sizelist, i + 1)
      ensures fits ==> LengthTables(firstcode[..], firstsymbol[..], maxcode[..], sizelist, i + 1)
    {
      ShlPow2(0, i);
      nextCode[i] := code;
      firstcode[i] := code;
      firstsymbol[i] := k;
      if n != 0 {
        if code + n - 1 >= Shl(1, i) {
          return false;
        }
      }
      maxcode[i] := Shl(code + n, 16 - i);
      return true;
    }

    method EnterSymbols(sizelist: seq<nat>, nextCode: array<nat>)
      requires Shape() && Kraft(sizelist) && |sizelist| <= MAX_SYMBOLS
      requires nextCode.Length == 16 && nextCode !in Tables()
      requires LengthTables(firstcode[..], firstsymbol[..], maxcode[..], sizelist, 16)
      requires FirstCodes(nextCode[..], sizelist, 16)
      requires forall w :: 0 <= w < FAST_SIZE ==> fast[w] == 0
      modifies fast, size, value, nextCode
      ensures FastTable(fast[..], sizelist, |sizelist|)
      ensures SortedTable(size[..], value[..], sizelist, |sizelist|)
    {
      for i := 0 to |sizelist|
        invariant NextCodes(nextCode[..], sizelist, i)
        invariant FastTable(fast[..], sizelist, i)
        invariant SortedTable(size[..], value[..], sizelist, i)
      {
        var s := sizelist[i];
        ghost var next := nextCode[..];
        NextCodesStep(next, sizelist, i);
        if s != 0 {
          var code := nextCode[s];
          EnterSymbol(sizelist, i, code);
          nextCode[s] := code + 1;
          assert nextCode[..] == next[s := next[s] + 1];
        } else {
          FastTableSkip(fast[..], sizelist, i);
          assert SortedTable(size[..], value[..], sizelist, i + 1);
        }
      }
    }

    method EnterSymbol(sizelist: seq<nat>, i: nat, code: nat)
      requires Shape() && Kraft(sizelist) && |sizelist| <= MAX_SYMBOLS
      requires i < |sizelist| && sizelist[i] > 0 && code == Code(sizelist, i)
      requires LengthTables(firstcode[..], firstsymbol[..], maxcode[..], sizelist, 16)
      requires FastTable(fast[..], sizelist, i) && SortedTable(size[..], value[..], sizelist, i)
      modifies fast, size, value
      ensures FastTable(fast[..], sizelist, i + 1) && SortedTable(size[..], value[..], sizelist, i + 1)
    {
      var s := sizelist[i];
      var c := code - firstcode[s] + firstsymbol[s];
      ghost var f0, s0, v0 := fast[..], size[..], value[..];
      PositionBound(sizelist, i);
      CodeFits(sizelist, i);
      size[c] := s;
      value[c] := i;
      if s <= FAST_BITS {
        FillFast(code, s, s * 512 + i);
        FastTableStep(f0, fast[..], sizelist, i);
      } else {
        assert fast[..] == f0;
        FastTableSkip(f0, sizelist, i);
      }
      assert size[..] == s0[c := sizelist[i]] && value[..] == v0[c := i];
      SortedTableStep(s0, v0, sizelist, i);
    }
  }

  lemma NextCodesStep(next: seq<nat>, lens: seq<nat>, i: nat)
    requires Lengths(lens) && i < |lens| && NextCodes(next, lens, i)
    ensures lens[i] == 0 ==> NextCodes(next, lens, i + 1)
    ensures lens[i] > 0 ==> NextCodes(next[lens[i] := next[lens[i]] + 1], lens, i + 1) && next[lens[i]] == Code(lens, i)
  {
    forall l: nat | l < 16 ensures Count(lens[..i + 1], l) == Count(lens[..i], l) + if lens[i] == l then 1 else 0 {
      CountStep(lens, i, l);
    }
  }

  lemma NoRoom(lens: seq<nat>, l: nat)
    requires Lengths(lens) && 1 <= l <= MAX_LENGTH && Next(lens, l) > Pow2(l)
    ensures !Kraft(lens)
  {
    KraftIffRoom(lens);
  }

  lemma RoomEnough(lens: seq<nat>)
    requires Lengths(lens) && Next(lens, MAX_LENGTH) <= Pow2(MAX_LENGTH)
    ensures Kraft(lens)
  {
    forall l | 1 <= l <= MAX_LENGTH ensures Next(lens, l) <= Pow2(l) {
      RoomFromLonger(lens, l, MAX_LENGTH);
    }
    KraftIffRoom(lens);
  }

  lemma FastTableStep(f0: seq<nat>, f1: seq<nat>, lens: seq<nat>, i: nat)
    requires i < |lens| <= MAX_SYMBOLS && 0 < lens[i] <= FAST_BITS
    requires FastTable(f0, lens, i) && |f1| == FAST_SIZE
    requires forall w :: 0 <= w < FAST_SIZE ==>
                           f1[w] == if Rev(w, lens[i]) == Code(lens, i) then lens[i] * 512 + i else f0[w]
    ensures FastTable(f1, lens, i + 1)
  {
    forall w, s | 0 <= w < FAST_SIZE && 0 <= s < i + 1 && FastMatch(lens, s, w)
      ensures f1[w] == lens[s] * 512 + s
    {
      if FastMatch(lens, i, w) {
        FastMatchUnique(lens, s, i, w);
      }
    }
    forall w | 0 <= w < FAST_SIZE && f1[w] != 0
      ensures f1[w] % 512 < i + 1 && FastMatch(lens, f1[w] % 512, w) && f1[w] / 512 == lens[f1[w] % 512]
    {
      if Rev(w, lens[i]) == Code(lens, i) {
        assert f1[w] % 512 == i && f1[w] / 512 == lens[i];
      } else {
        assert f1[w] == f0[w];
      }
    }
  }

  lemma FastTableSkip(f: seq<nat>, lens: seq<nat>, i: nat)
    requires i < |lens| && FastTable(f, lens, i) && !(0 < lens[i] <= FAST_BITS)
    ensures FastTable(f, lens, i + 1)
  {
    forall w, s | 0 <= w < FAST_SIZE && 0 <= s < i + 1 && FastMatch(lens, s, w)
      ensures f[w] == lens[s] * 512 + s
    {
      assert s < i;
    }
  }

  lemma SortedTableStep(size: seq<nat>, value: seq<nat>, lens: seq<nat>, i: nat)
    requires i < |lens| && lens[i] > 0 && Position(lens, i) < MAX_SYMBOLS
    requires SortedTable(size, value, lens, i)
    ensures var c := Position(lens, i);
            SortedTable(size[c := lens[i]], value[c := i], lens, i + 1)
  {
    forall t: nat | t < i && lens[t] > 0 ensures Position(lens, t) != Position(lens, i) {
      if Position(lens, t) == Position(lens, i) {
        PositionInjective(lens, t, i);
      }
    }
  }

  /** The reversed code is the least word that starts with the code. */
  lemma FirstSpelling(code: nat, s: nat)
    requires code < Pow2(s) && s <= 16
    ensures Rev(BitReverse(code, s), s) == code
    ensures forall w: nat :: Rev(w, s) == code ==> w >= BitReverse(code, s)
  {
    BitReverseIsRev(code, s);
    RevInvolution(code, s);
    LowBound(code, s);
    forall w: nat | Rev(w, s) == code ensures w >= Rev(code, s) {
      RevInvolution(w, s);
      LowBound(w, s);
    }
  }

  /** Words with the same first `s` bits are `2^s` apart. */
  lemma NextSpelling(j: nat, s: nat)
    ensures Rev(j + Shl(1, s), s) == Rev(j, s)
    ensures forall w: nat :: Rev(w, s) == Rev(j, s) && w < j + Shl(1, s) ==> w <= j
  {
    ShiftedPeriod(j, s);
    forall w: nat | Rev(w, s) == Rev(j, s) && w < j + Shl(1, s) ensures w <= j {
      SamePrefix(w, j, s);
    }
  }

  lemma {:induction false} ShiftedPeriod(j: nat, s: nat)
    ensures Rev(j + Shl(1, s), s) == Rev(j, s)
    decreases s
  {
    if s > 0 {
      assert (j + Shl(1, s)) / 2 == j / 2 + Shl(1, s - 1);
      ShiftedPeriod(j / 2, s - 1);
    }
  }

  lemma {:induction false} SamePrefix(w: nat, j: nat, s: nat)
    requires Rev(w, s) == Rev(j, s) && w < j + Shl(1, s)
    ensures w <= j
    decreases s
  {
    if s > 0 {
      RevBound(w / 2, s - 1);
      RevBound(j / 2, s - 1);
      SamePrefix(w / 2, j / 2, s - 1);
    }
  }

  lemma FastMatchUnique(lens: seq<nat>, s: nat, t: nat, w: nat)
    requires FastMatch(lens, s, w) && FastMatch(lens, t, w)
    ensures s == t
  {
    if lens[s] <= lens[t] {
      RevTop(w, lens[s], lens[t] - lens[s]);
      PrefixFree(lens, s, t);
    } else {
      RevTop(w, lens[t], lens[s] - lens[t]);
      PrefixFree(lens, t, s);
    }
  }
}
