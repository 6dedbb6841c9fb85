/** How far past the end of its input a DEFLATE stream can be spelled, zeros being read there. */
module Overrun {
  import opened Words
  import opened BitStream
  import opened Canonical
  import opened DeflateFormat

  /** The bits of a longest dynamic header (three type bits, 14 of counts, 19 lengths of 3 bits, 320
      code lengths of at most 14) and of a last symbol, less the one bit inside the input. */
  const MAX_OVERRUN: nat := 3 + 14 + 57 + 14 * 320 + 15 - 1

  function Later(p: int, q: int): int { if p >= q then p else q }

  // ----- past the end, every position reads alike -----

  lemma {:induction false} MsbPastEnd(data: seq<byte>, p: nat, n: nat)
    requires p >= 8 * |data|
    ensures Msb(data, p, n) == 0
  {
    if n > 0 {
      MsbPastEnd(data, p, n - 1);
      BitPastEnd(data, p + n - 1);
    }
  }

  lemma SymbolPastEnd(data: seq<byte>, p: nat, q: nat, lens: seq<nat>)
    requires p >= 8 * |data| && q >= 8 * |data|
    ensures SymbolAt(data, p, lens) == SymbolAt(data, q, lens)
  {
    forall s: nat | s < |lens|
      ensures Spelled(data, p, lens, s) <==> Spelled(data, q, lens, s)
    {
      MsbPastEnd(data, p, lens[s]);
      MsbPastEnd(data, q, lens[s]);
    }
    var s := SymbolAt(data, p, lens);
    if s >= 0 {
      SymbolAtIs(data, q, lens, s);
    }
  }

  /** A list of tokens that ends at all has none that starts past the end of the input: the same
      token would follow for ever. */
  lemma {:induction false} TokensPastEnd(data: seq<byte>, c: Codes, p: nat, n: nat, ts: seq<Token>)
    requires p >= 8 * |data| && TokensEnd(data, c, p, n, ts) >= 0
    ensures ts == []
    decreases |ts|
  {
    hide SymbolAt;
    hide Window;
    var s := StepAt(data, c, p, n);
    StepForward(data, c, p, n);
    if s.Next? {
      SymbolPastEnd(data, p, s.q, c.lit);
      assert !StepAt(data, c, s.q, n + Length(s.t)).EndOfBlock?;
      TokensPastEnd(data, c, s.q, n + Length(s.t), ts[1..]);
    }
  }

  // ----- how many bits things take -----

  lemma StepWidth(data: seq<byte>, c: Codes, p: nat, n: nat)
    requires Lengths(c.lit) && Lengths(c.dist)
    ensures var s := StepAt(data, c, p, n);
            (s.EndOfBlock? ==> s.q <= p + 15) && (s.Next? ==> s.q <= p + 48)
  {
    hide SymbolAt;
    hide Window;
    hide LengthBase;
    hide DistBase;
  }

  lemma {:induction false} TokensOverrun(data: seq<byte>, c: Codes, p: nat, n: nat, ts: seq<Token>)
    requires Lengths(c.lit) && Lengths(c.dist) && TokensEnd(data, c, p, n, ts) >= 0
    ensures TokensEnd(data, c, p, n, ts) <= Later(p, 8 * |data| + 47) + 15
    decreases |ts|
  {
    hide StepAt;
    var s := StepAt(data, c, p, n);
    StepWidth(data, c, p, n);
    if p >= 8 * |data| {
      TokensPastEnd(data, c, p, n, ts);
    } else if s.Next? {
      TokensOverrun(data, c, s.q, n + Length(s.t), ts[1..]);
    }
  }

  lemma {:induction false} LengthLengthsShort(data: seq<byte>, p: nat, k: nat)
    requires k <= 19
    ensures forall i :: 0 <= i < 19 ==> LengthLengths(data, p, k)[i] <= 7
  {
    if k > 0 {
      LengthLengthsShort(data, p, k - 1);
      WindowBound(data, p + 3 * (k - 1), 3);
      assert Pow2(3) == 8;
    }
  }

  lemma {:induction false} ReadLengthsWidth(data: seq<byte>, cl: seq<nat>, p: nat, total: nat, acc: seq<nat>)
    requires |cl| == 19 && |acc| <= total && forall i :: 0 <= i < 19 ==> cl[i] <= 7
    ensures var r := ReadLengths(data, cl, p, total, acc); r.SomeLengths? ==> r.q <= p + 14 * (total - |acc|)
    decreases total - |acc|
  {
    hide SymbolAt;
    hide Window;
    if |acc| < total {
      var z := SymbolAt(data, p, cl);
      if z >= 0 {
        var q := p + cl[z];
        if z < 16 {
          ReadLengthsWidth(data, cl, q, total, acc + [z]);
        } else {
          var c := Repeat(data, q, z);
          if !((z == 16 && acc == []) || c > total - |acc|) {
            var fill := if z == 16 then acc[|acc| - 1] else 0;
            ReadLengthsWidth(data, cl, q + RepeatBits(z), total, acc + seq(c, i => fill));
          }
        }
      }
    }
  }

  lemma HeaderWidth(data: seq<byte>, p: nat)
    ensures var h := DynamicHeader(data, p);
            h.Header? ==> h.q <= p + 14 + 57 + 14 * 320 && Lengths(h.codes.lit) && Lengths(h.codes.dist)
  {
    hide ReadLengths;
    hide Window;
    hide LengthLengths;
    var hlit, hdist, hclen := Window(data, p, 5) + 257, Window(data, p + 5, 5) + 1, Window(data, p + 10, 4) + 4;
    CountBounds(data, p);
    LengthLengthsShort(data, p + 14, hclen);
    ReadLengthsWidth(data, LengthLengths(data, p + 14, hclen), p + 14 + 3 * hclen, hlit + hdist, []);
  }

  // ----- blocks -----

  /** No block starts past the end of the input. */
  lemma BlockStartsInside(data: seq<byte>, p: nat, n: nat, b: Block)
    requires BlockEnd(data, p, n, b) >= 0
    ensures p < 8 * |data|
  {
    hide Window;
    hide TokensEnd;
    hide DynamicHeader;
    if p >= 8 * |data| {
      WindowPastEnd(data, p + 1, 2);
      WindowPastEnd(data, ByteBoundary(p + 3), 16);
      WindowPastEnd(data, ByteBoundary(p + 3) + 16, 16);
      assert false;
    }
  }

  lemma FixedLengths()
    ensures Lengths(FixedCodes().lit) && Lengths(FixedCodes().dist)
  {
  }

  lemma FixedOverrun(data: seq<byte>, p: nat, n: nat, ts: seq<Token>)
    requires p < 8 * |data| && TokensEnd(data, FixedCodes(), p + 3, n, ts) >= 0
    ensures TokensEnd(data, FixedCodes(), p + 3, n, ts) <= 8 * |data| + 62
  {
    FixedLengths();
    hide TokensEnd;
    hide FixedCodes;
    hide Lengths;
    TokensOverrun(data, FixedCodes(), p + 3, n, ts);
  }

  lemma DynamicOverrun(data: seq<byte>, p: nat, n: nat, ts: seq<Token>)
    requires p < 8 * |data| && DynamicHeader(data, p + 3).Header?
    requires var h := DynamicHeader(data, p + 3); TokensEnd(data, h.codes, h.q, n, ts) >= 0
    ensures var h := DynamicHeader(data, p + 3); TokensEnd(data, h.codes, h.q, n, ts) <= 8 * |data| + MAX_OVERRUN
  {
    hide TokensEnd;
    hide DynamicHeader;
    hide Lengths;
    var h := DynamicHeader(data, p + 3);
    HeaderWidth(data, p + 3);
    TokensOverrun(data, h.codes, h.q, n, ts);
  }

  /** A compressed block ends at most a fixed number of bits past the end of the input. */
  lemma BlockOverrun(data: seq<byte>, p: nat, n: nat, b: Block)
    requires BlockEnd(data, p, n, b) >= 0 && !b.Stored?
    ensures BlockEnd(data, p, n, b) <= 8 * |data| + MAX_OVERRUN
    ensures b.Fixed? ==> BlockEnd(data, p, n, b) <= 8 * |data| + 62
  {
    BlockStartsInside(data, p, n, b);
    hide Window;
    hide TokensEnd;
    hide DynamicHeader;
    hide FixedCodes;
    if b.Fixed? {
      FixedOverrun(data, p, n, b.tokens);
    } else {
      DynamicOverrun(data, p, n, b.tokens);
    }
  }

  // ----- an input that ends inside its only block -----

  lemma {:induction false} CountNone(lens: seq<nat>, l: nat)
    requires forall i :: 0 <= i < |lens| ==> lens[i] != l
    ensures Count(lens, l) == 0
  {
    if lens != [] {
      CountNone(lens[..|lens| - 1], l);
    }
  }

  lemma {:induction false} FirstNone(lens: seq<nat>, l: nat)
    requires forall i :: 0 <= i < |lens| ==> lens[i] >= l
    ensures First(lens, l) == 0
    decreases l
  {
    if l > 1 {
      FirstNone(lens, l - 1);
      CountNone(lens, l - 1);
    }
  }

  /** The end-of-block symbol of the fixed code is spelled by seven zeros. */
  lemma FixedEndCode()
    ensures FixedLit()[256] == 7 && Code(FixedLit(), 256) == 0
  {
    FirstNone(FixedLit(), 7);
    CountNone(FixedLit()[..256], 7);
  }

  lemma {:induction false} MsbZero(data: seq<byte>, p: nat, n: nat)
    requires forall i :: p <= i < p + n ==> BitAt(data, i) == 0
    ensures Msb(data, p, n) == 0
  {
    if n > 0 {
      MsbZero(data, p, n - 1);
    }
  }

  /** The byte 3 followed by zeros is a final, empty, fixed block of ten bits. */
  lemma ShortBlock()
    ensures StreamEnd([3], 0, 0, [Fixed([])]) == 10 && TotalSize([Fixed([])]) == 0 && Output([], [Fixed([])]) == []
  {
    var data: seq<byte> := [3];
    assert BitAt(data, 0) == 1 && BitAt(data, 1) == 1 && BitAt(data, 2) == 0;
    assert Window(data, 0, 1) == 1 by {
      assert Window(data, 1, 0) == 0;
    }
    assert Window(data, 1, 2) == 1 by {
      assert Window(data, 3, 0) == 0;
      assert Window(data, 2, 1) == 0;
    }
    ShortSymbol();
    hide Window;
    hide SymbolAt;
    var ts: seq<Token> := [];
    assert StepAt(data, FixedCodes(), 3, 0) == EndOfBlock(10);
    assert TokensEnd(data, FixedCodes(), 3, 0, ts) == 10;
    assert BlockEnd(data, 0, 0, Fixed(ts)) == 10;
  }

  lemma ShortSymbol()
    ensures SymbolAt([3], 3, FixedLit()) == 256 && FixedLit()[256] == 7
  {
    var data: seq<byte> := [3];
    FixedEndCode();
    forall i | 3 <= i < 10
      ensures BitAt(data, i) == 0
    {
      if i >= 8 {
        BitPastEnd(data, i);
      } else {
        assert Bit(3, i) == Bit(1, i - 1) == Bit(0, i - 2);
        BitZero(i - 2);
      }
    }
    MsbZero(data, 3, 7);
    SymbolAtIs(data, 3, FixedLit(), 256);
  }
}
