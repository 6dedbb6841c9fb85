/** The numbers of RFC 1951, stated of the format the decoder is proved against. */
module Rfc1951 {
  import opened Words
  import opened BitStream
  import opened Canonical
  import opened DeflateFormat

  // ----- canonical codes (section 3.2.2) -----

  /** Symbols in code order: by length, and by number within a length. */
  predicate Precedes(lens: seq<nat>, s: nat, t: nat)
    requires s < |lens| && t < |lens|
  {
    lens[s] < lens[t] || (lens[s] == lens[t] && s < t)
  }

  /** Codes come in that order: extended by zeros to the longer one's length, the next code after
      an earlier symbol's is at most a later symbol's. */
  lemma CodesOrdered(lens: seq<nat>, s: nat, t: nat)
    requires s < |lens| && t < |lens| && 0 < lens[s] && Precedes(lens, s, t)
    ensures Shl(Code(lens, s) + 1, lens[t] - lens[s]) <= Code(lens, t)
  {
    RankBelowCount(lens, s);
    if lens[s] == lens[t] {
      RankStrict(lens, s, t);
    } else {
      NextGrows(lens, lens[s], lens[t]);
      ShlOrder(Code(lens, s) + 1, Canonical.Next(lens, lens[s]), lens[t] - lens[s]);
    }
  }

  /** They leave no gaps: the symbol right after another in that order has exactly that code, and
      the first of all has code zero. */
  lemma CodesConsecutive(lens: seq<nat>, s: nat, t: nat)
    requires s < |lens| && t < |lens| && 0 < lens[s] && Precedes(lens, s, t)
    requires forall u :: 0 <= u < |lens| && lens[u] > 0 ==> !(Precedes(lens, s, u) && Precedes(lens, u, t))
    ensures Code(lens, t) == Shl(Code(lens, s) + 1, lens[t] - lens[s])
  {
    RankBelowCount(lens, s);
    RankBelowCount(lens, t);
    if lens[s] == lens[t] {
      RankStrict(lens, s, t);
      if Rank(lens, t) > Rank(lens, s) + 1 {
        var u := SymbolWithRank(lens, lens[s], Rank(lens, s) + 1);
        Between(lens, s, u);
        Between(lens, u, t);
        assert false;
      }
    } else {
      if Rank(lens, s) + 1 < Count(lens, lens[s]) {
        var u := SymbolWithRank(lens, lens[s], Rank(lens, s) + 1);
        Between(lens, s, u);
        assert false;
      }
      if Rank(lens, t) > 0 {
        var u := SymbolWithRank(lens, lens[t], 0);
        Between(lens, u, t);
        assert false;
      }
      forall l | lens[s] < l < lens[t]
        ensures Count(lens, l) == 0
      {
        if Count(lens, l) > 0 {
          var u := SymbolWithRank(lens, l, 0);
          assert false;
        }
      }
      GapGrows(lens, lens[s], lens[t]);
    }
  }

  /** Within a length, rank follows number. */
  lemma Between(lens: seq<nat>, s: nat, t: nat)
    requires s < |lens| && t < |lens| && lens[s] == lens[t] && Rank(lens, s) < Rank(lens, t)
    ensures s < t
  {
    if t < s {
      RankStrict(lens, t, s);
    }
  }

  lemma {:induction false} GapGrows(lens: seq<nat>, a: nat, b: nat)
    requires 1 <= a < b && forall l :: a < l < b ==> Count(lens, l) == 0
    ensures First(lens, b) == Shl(Canonical.Next(lens, a), b - a)
    decreases b
  {
    if a + 1 < b {
      GapGrows(lens, a, b - 1);
      assert First(lens, b) == 2 * (First(lens, b - 1) + Count(lens, b - 1));
      assert Shl(Canonical.Next(lens, a), b - a) == 2 * Shl(Canonical.Next(lens, a), b - 1 - a);
    } else {
      assert Shl(Canonical.Next(lens, a), 1) == 2 * Shl(Canonical.Next(lens, a), 0);
    }
  }

  lemma {:induction false} FirstEmpty(lens: seq<nat>, l: nat)
    requires forall m :: 1 <= m < l ==> Count(lens, m) == 0
    ensures First(lens, l) == 0
    decreases l
  {
    if l > 1 {
      FirstEmpty(lens, l - 1);
    }
  }

  lemma FirstCodeZero(lens: seq<nat>, t: nat)
    requires t < |lens| && 0 < lens[t]
    requires forall u :: 0 <= u < |lens| && lens[u] > 0 ==> !Precedes(lens, u, t)
    ensures Code(lens, t) == 0
  {
    forall l | 1 <= l < lens[t]
      ensures Count(lens, l) == 0
    {
      if Count(lens, l) > 0 {
        var u := SymbolWithRank(lens, l, 0);
        assert false;
      }
    }
    FirstEmpty(lens, lens[t]);
    RankBelowCount(lens, t);
    if Rank(lens, t) > 0 {
      var u := SymbolWithRank(lens, lens[t], 0);
      Between(lens, u, t);
      assert false;
    }
  }

  // ----- fixed codes (section 3.2.6) -----

  /** The codes of the fixed literal and length code, as the section tabulates them: 8 bits from
      00110000, 9 bits from 110010000, 7 bits from 0000000, and 8 bits from 11000000. */
  lemma FixedCode(s: nat)
    requires s < 288
    ensures s < 144 ==> FixedLit()[s] == 8 && Code(FixedLit(), s) == 48 + s
    ensures 144 <= s < 256 ==> FixedLit()[s] == 9 && Code(FixedLit(), s) == 400 + (s - 144)
    ensures 256 <= s < 280 ==> FixedLit()[s] == 7 && Code(FixedLit(), s) == s - 256
    ensures 280 <= s ==> FixedLit()[s] == 8 && Code(FixedLit(), s) == 192 + (s - 280)
  {
    FixedFirsts();
    FixedRank(s);
  }

  /** The fixed distance code: 5 bits, the symbol's own number. */
  lemma FixedDistCode(s: nat)
    requires s < 32
    ensures FixedDist()[s] == 5 && Code(FixedDist(), s) == s
  {
    forall l | 1 <= l < 5
      ensures Count(FixedDist(), l) == 0
    {
      CountRange(FixedDist(), l, 32, 32);
    }
    FirstEmpty(FixedDist(), 5);
    CountRange(FixedDist()[..s], 5, 0, s);
  }

  /** Counting a length that fills exactly one stretch. */
  lemma {:induction false} CountRange(lens: seq<nat>, l: nat, a: nat, b: nat)
    requires a <= b <= |lens|
    requires forall i :: 0 <= i < |lens| ==> (lens[i] == l <==> a <= i < b)
    ensures Count(lens, l) == b - a
    decreases |lens|
  {
    if lens != [] {
      var n := |lens| - 1;
      if b > n {
        CountRange(lens[..n], l, if a > n then n else a, n);
      } else {
        CountRange(lens[..n], l, a, b);
      }
    }
  }

  lemma FixedFirsts()
    ensures First(FixedLit(), 7) == 0 && First(FixedLit(), 8) == 48 && First(FixedLit(), 9) == 400
  {
    var lens := FixedLit();
    forall l | 1 <= l < 7
      ensures Count(lens, l) == 0
    {
      CountRange(lens, l, 288, 288);
    }
    FirstEmpty(lens, 7);
    CountRange(lens, 7, 256, 280);
    FixedEights();
  }

  /** 144 symbols of length 8 below 144, and 8 from 280 on. */
  lemma FixedEights()
    ensures Count(FixedLit(), 8) == 152
  {
    var lens := FixedLit();
    CountRange(lens[..280], 8, 0, 144);
    CountTail(lens, 8, 280);
  }

  lemma {:induction false} CountTail(lens: seq<nat>, l: nat, a: nat)
    requires a <= |lens| && forall i :: a <= i < |lens| ==> lens[i] == l
    ensures Count(lens, l) == Count(lens[..a], l) + (|lens| - a)
    decreases |lens|
  {
    if a < |lens| {
      var n := |lens| - 1;
      CountTail(lens[..n], l, a);
      assert lens[..n][..a] == lens[..a];
    } else {
      assert lens[..a] == lens;
    }
  }

  lemma FixedRank(s: nat)
    requires s < 288
    ensures s < 144 ==> Rank(FixedLit(), s) == s
    ensures 144 <= s < 256 ==> Rank(FixedLit(), s) == s - 144
    ensures 256 <= s < 280 ==> Rank(FixedLit(), s) == s - 256
    ensures 280 <= s ==> Rank(FixedLit(), s) == 144 + (s - 280)
  {
    var lens := FixedLit();
    if s < 144 {
      CountRange(lens[..s], 8, 0, s);
    } else if s < 256 {
      CountRange(lens[..s], 9, 144, s);
    } else if s < 280 {
      CountRange(lens[..s], 7, 256, s);
    } else {
      CountRange(lens[..s][..280], 8, 0, 144);
      CountTail(lens[..s], 8, 280);
    }
  }

  // ----- lengths and distances (section 3.2.5) -----

  /** Symbols below 256 are literals and 256 ends the block. 257 to 285, with a distance symbol below
      30 after the length's extra bits, are a match if it reaches back no further than the output;
      nothing else is a step. */
  lemma StepKinds(data: seq<byte>, c: Codes, p: nat, n: nat)
    ensures var z, s := SymbolAt(data, p, c.lit), StepAt(data, c, p, n);
            && (0 <= z <= 255 ==> s == Next(Literal(z as byte), p + c.lit[z]))
            && (z == 256 ==> s == EndOfBlock(p + c.lit[z]))
            && (z < 0 || z > 285 ==> s.Bad?)
            && (257 <= z <= 285 ==>
                  var q := p + c.lit[z];
                  var e := LengthExtra(z - 257);
                  var y := SymbolAt(data, q + e, c.dist);
                  if !(0 <= y <= 29) then s.Bad?
                  else
                    var r := q + e + c.dist[y];
                    var len, d := LengthBase(z - 257) + Window(data, q, e), DistBase(y) + Window(data, r, DistExtra(y));
                    s == if d > n then Bad else Next(Match(len, d), r + DistExtra(y)))
  {
    hide SymbolAt;
    hide Window;
  }

  /** Extra bits: none for lengths up to 10 and for 258, then one more with every group of four
      symbols; none for distances up to 4, then one more with every pair. */
  lemma ExtraBits()
    ensures forall i :: 0 <= i < 8 ==> LengthExtra(i) == 0
    ensures forall i :: 8 <= i < 28 ==> 4 * LengthExtra(i) <= i - 4 < 4 * LengthExtra(i) + 4
    ensures LengthExtra(28) == 0 && LengthBase(28) == 258
    ensures forall i :: 0 <= i < 4 ==> DistExtra(i) == 0
    ensures forall i :: 4 <= i < 30 ==> 2 * DistExtra(i) <= i - 2 < 2 * DistExtra(i) + 2
  {
  }

  // ----- dynamic blocks (section 3.2.7) -----

  /** Where the length of each code length symbol is read: 16, 17, 18, 0, then from 8 outwards, above
      and below in turn. The ones not listed have none. */
  lemma {:induction false} LengthLengthsAt(data: seq<byte>, p: nat, k: nat, s: nat)
    requires k <= 19 && s < 19
    ensures 16 <= s ==> LengthLengths(data, p, k)[s] == if s - 16 < k then Window(data, p + 3 * (s - 16), 3) else 0
    ensures s == 0 ==> LengthLengths(data, p, k)[s] == if 3 < k then Window(data, p + 9, 3) else 0
    ensures 8 <= s <= 15 ==>
              LengthLengths(data, p, k)[s] == if 4 + 2 * (s - 8) < k then Window(data, p + 3 * (4 + 2 * (s - 8)), 3) else 0
    ensures 1 <= s <= 7 ==>
              LengthLengths(data, p, k)[s] == if 5 + 2 * (7 - s) < k then Window(data, p + 3 * (5 + 2 * (7 - s)), 3) else 0
    decreases k
  {
    hide Window;
    if k > 0 {
      LengthLengthsAt(data, p, k - 1, s);
      Place(k - 1, s);
    }
  }

  lemma Place(j: nat, s: nat)
    requires j < 19 && s < 19
    ensures ORDER[j] < 19
    ensures ORDER[j] == s <==> j == (if s >= 16 then s - 16 else if s == 0 then 3 else if s >= 8 then 4 + 2 * (s - 8) else 5 + 2 * (7 - s))
  {
  }

  /** Repeat symbols: the last length 3 to 6 times, zero 3 to 10 times, zero 11 to 138 times. */
  lemma RepeatNumbers(data: seq<byte>, p: nat)
    ensures Repeat(data, p, 16) == 3 + Window(data, p, 2) <= 6 && RepeatBits(16) == 2
    ensures Repeat(data, p, 17) == 3 + Window(data, p, 3) <= 10 && RepeatBits(17) == 3
    ensures Repeat(data, p, 18) == 11 + Window(data, p, 7) <= 138 && RepeatBits(18) == 7
  {
    WindowBound(data, p, 2);
    WindowBound(data, p, 3);
    WindowBound(data, p, 7);
    assert Pow2(2) == 4 && Pow2(3) == 8 && Pow2(7) == 128;
  }

  /** What the repeat symbols repeat. */
  lemma RepeatMeaning(data: seq<byte>, cl: seq<nat>, p: nat, total: nat, acc: seq<nat>)
    requires |cl| == 19 && |acc| < total
    ensures var z := SymbolAt(data, p, cl);
            && (0 <= z <= 15 ==>
                  ReadLengths(data, cl, p, total, acc) == ReadLengths(data, cl, p + cl[z], total, acc + [z]))
            && (16 <= z <= 18 && !(z == 16 && acc == []) && |acc| + Repeat(data, p + cl[z], z) <= total ==>
                  var fill := if z == 16 then acc[|acc| - 1] else 0;
                  ReadLengths(data, cl, p, total, acc) ==
                  ReadLengths(data, cl, p + cl[z] + RepeatBits(z), total, acc + seq(Repeat(data, p + cl[z], z), i => fill)))
            && ((z < 0 || (z == 16 && acc == []) || (z >= 16 && |acc| + Repeat(data, p + cl[z], z) > total)) ==>
                  ReadLengths(data, cl, p, total, acc) == NoLengths)
  {
    hide SymbolAt;
    hide Window;
  }

  /** The counts: 257 to 288 literal and length codes, 1 to 32 distance codes, 4 to 19 lengths of
      the code length code, in five, five and four bits; then the lengths, three bits each. */
  lemma HeaderCounts(data: seq<byte>, p: nat)
    ensures var hclen := Window(data, p + 10, 4) + 4;
            hclen <= 19 &&
            DynamicHeader(data, p) ==
            ListedCodes(data, LengthLengths(data, p + 14, hclen), p + 14 + 3 * hclen, 257 + Window(data, p, 5), 1 + Window(data, p + 5, 5))
  {
    CountBounds(data, p);
    hide ListedCodes;
    hide Window;
  }

  // ----- stored blocks (section 3.2.4) -----

  /** A stored block inside the input is a stretch of it: after the byte boundary two bytes of length,
      low byte first, two that complement it, and then that many bytes. */
  lemma StoredIsSlice(data: seq<byte>, p: nat, bytes: seq<byte>)
    requires 0 <= StoredEnd(data, p, bytes) <= 8 * |data|
    ensures var k := (p + 7) / 8;
            && k + 4 + |bytes| <= |data| && StoredEnd(data, p, bytes) == 8 * (k + 4 + |bytes|)
            && |bytes| == data[k] as int + 256 * data[k + 1] as int
            && data[k + 2] as int == 255 - data[k] as int && data[k + 3] as int == 255 - data[k + 1] as int
            && bytes == data[k + 4..k + 4 + |bytes|]
  {
    var k := (p + 7) / 8;
    assert ByteBoundary(p) == 8 * k;
    StoredShape(data, p, k, bytes);
    hide StoredEnd;
    hide Window;
    StoredLength(data, k, |bytes|);
    StoredContents(data, k, bytes);
  }

  lemma StoredShape(data: seq<byte>, p: nat, k: nat, bytes: seq<byte>)
    requires ByteBoundary(p) == 8 * k && StoredEnd(data, p, bytes) >= 0
    ensures StoredEnd(data, p, bytes) == 8 * (k + 4 + |bytes|)
    ensures Window(data, 8 * k, 16) == |bytes| && Window(data, 8 * (k + 2), 16) == 0xffff - |bytes|
    ensures forall i :: 0 <= i < |bytes| ==> bytes[i] as nat == Window(data, 8 * (k + 4 + i), 8)
  {
    hide Window;
    hide ByteBoundary;
    assert 8 * k + 16 == 8 * (k + 2);
    forall i | 0 <= i < |bytes|
      ensures bytes[i] as nat == Window(data, 8 * (k + 4 + i), 8)
    {
      assert 8 * k + 32 + 8 * i == 8 * (k + 4 + i);
    }
  }

  lemma StoredLength(data: seq<byte>, k: nat, len: nat)
    requires k + 4 <= |data| && len <= 0xffff
    requires Window(data, 8 * k, 16) == len && Window(data, 8 * (k + 2), 16) == 0xffff - len
    ensures len == data[k] as int + 256 * data[k + 1] as int
    ensures data[k + 2] as int == 255 - data[k] as int && data[k + 3] as int == 255 - data[k + 1] as int
  {
    hide Window;
    Pair(data, k);
    Pair(data, k + 2);
    Complements(data[k] as nat, data[k + 1] as nat, data[k + 2] as nat, data[k + 3] as nat, len);
  }

  lemma StoredContents(data: seq<byte>, k: nat, bytes: seq<byte>)
    requires k + 4 + |bytes| <= |data| && forall i :: 0 <= i < |bytes| ==> bytes[i] as nat == Window(data, 8 * (k + 4 + i), 8)
    ensures bytes == data[k + 4..k + 4 + |bytes|]
  {
    hide Window;
    forall i | 0 <= i < |bytes|
      ensures bytes[i] == data[k + 4 + i]
    {
      WindowByte(data, k + 4 + i);
    }
  }

  lemma Complements(a: nat, b: nat, c: nat, d: nat, len: nat)
    requires a < 256 && b < 256 && c < 256 && d < 256
    requires a + 256 * b == len && c + 256 * d == 0xffff - len
    ensures c == 255 - a && d == 255 - b
  {
  }

  lemma Pair(data: seq<byte>, k: nat)
    ensures Window(data, 8 * k, 16) == ByteAt(data, k) as int + 256 * ByteAt(data, k + 1) as int
  {
    WindowConcat(data, 8 * k, 8, 8);
    hide Window;
    WindowByte(data, k);
    WindowByte(data, k + 1);
    Shl8(ByteAt(data, k + 1) as nat);
  }

  // ----- blocks (section 3.2.3) -----

  /** One bit marks the last block; two give its type. */
  lemma BlockKinds(data: seq<byte>, p: nat, n: nat, b: Block)
    requires BlockEnd(data, p, n, b) >= 0
    ensures BitAt(data, p + 1) + 2 * BitAt(data, p + 2) == match b case Stored(_) => 0 case Fixed(_) => 1 case Dynamic(_) => 2
    ensures StreamEnd(data, p, n, [b]) >= 0 <==> BitAt(data, p) == 1
  {
    hide BitAt;
    hide TokensEnd;
    hide StoredEnd;
    hide DynamicHeader;
    assert Window(data, p + 3, 0) == 0 && Window(data, p + 2, 1) == BitAt(data, p + 2);
    assert Window(data, p + 1, 0) == 0;
    assert [b][1..] == [];
  }
}
