/** Streams worked out by hand: what the decoder makes of given inputs. */
module WorkedStreams {
  import opened Words
  import opened BitStream
  import opened Canonical
  import opened DeflateFormat
  import opened Metering
  import opened Tape
  import opened Rfc1951
  import opened Inflate

  // ----- codes with two symbols -----

  /** Symbols `a` and `b` have one bit each, and no other symbol has a code. */
  ghost predicate TwoCodes(lens: seq<nat>, a: nat, b: nat) {
    a < b < |lens| && forall i :: 0 <= i < |lens| ==> lens[i] == if i == a || i == b then 1 else 0
  }

  lemma {:induction false} KraftOnes(lens: seq<nat>)
    requires forall i :: 0 <= i < |lens| ==> lens[i] <= 1
    ensures Lengths(lens) && KraftSum(lens) == 16384 * Count(lens, 1)
  {
    assert Pow2(14) == 16384;
    if lens != [] {
      KraftOnes(lens[..|lens| - 1]);
    }
  }

  lemma {:induction false} CountAtMost(lens: seq<nat>, a: nat, b: nat)
    requires TwoCodes(lens, a, b)
    ensures Count(lens, 1) == 2
  {
    CountRange(lens[..b], 1, a, a + 1);
    CountStep(lens, b, 1);
    CountRange(lens[b + 1..], 1, 0, 0);
    TailNone(lens, b + 1);
  }

  lemma {:induction false} TailNone(lens: seq<nat>, n: nat)
    requires n <= |lens| && forall i :: n <= i < |lens| ==> lens[i] != 1
    ensures Count(lens, 1) == Count(lens[..n], 1)
    decreases |lens|
  {
    if n < |lens| {
      TailNone(lens[..|lens| - 1], n);
      assert lens[..|lens| - 1][..n] == lens[..n];
    } else {
      assert lens[..n] == lens;
    }
  }

  /** The first symbol is spelled by a zero, the second by a one. */
  lemma TwoSymbols(data: seq<byte>, p: nat, lens: seq<nat>, a: nat, b: nat)
    requires TwoCodes(lens, a, b)
    ensures Kraft(lens)
    ensures SymbolAt(data, p, lens) == if BitAt(data, p) == 0 then a else b
  {
    hide BitAt;
    assert Pow2(15) == 32768;
    KraftOnes(lens);
    CountAtMost(lens, a, b);
    Tape.Codes(data, p);
    CountRange(lens[..a], 1, 0, 0);
    CountRange(lens[..b], 1, a, a + 1);
    SymbolAtIs(data, p, lens, if BitAt(data, p) == 0 then a else b);
  }

  // ----- a dynamic block -----

  function DynamicInput(): seq<byte> {
    [0x05, 0xC0, 0x81, 0, 0, 0, 0, 0, 0x90, 0x36, 0xFF, 0x53, 0x08]
  }

  lemma DynamicCounts()
    ensures var d := DynamicInput();
            && Window(d, 0, 1) == 1 && Window(d, 1, 2) == 2
            && Window(d, 3, 5) == 0 && Window(d, 8, 5) == 0 && Window(d, 13, 4) == 14
  {
    var d := DynamicInput();
    hide BitAt;
    hide Window;
    ByteBits(d, 0, 1, 0, 1, 0, 0, 0, 0, 0);
    ByteBits(d, 1, 0, 0, 0, 0, 0, 0, 1, 1);
    ByteBits(d, 2, 1, 0, 0, 0, 0, 0, 0, 1);
    Windows(d, 0);
    Windows(d, 1);
    Windows(d, 3);
    Windows(d, 7);
    Windows(d, 8);
    Windows(d, 12);
    Windows(d, 13);
    WindowJoin(d, 3, 1);
    WindowJoin(d, 8, 1);
  }

  lemma DynamicZeros(i: nat)
    requires 24 <= i < 68
    ensures BitAt(DynamicInput(), i) == 0
  {
    var d := DynamicInput();
    var k, j := i / 8, i % 8;
    BitInByte(d, k, j);
    hide BitAt;
    if k < 8 {
      BitZero(j);
    } else {
    ByteBits(d, 8, 0, 0, 0, 0, 1, 0, 0, 1);
    }
  }

  lemma WindowZero(data: seq<byte>, p: nat)
    requires BitAt(data, p) == 0 && BitAt(data, p + 1) == 0 && BitAt(data, p + 2) == 0
    ensures Window(data, p, 3) == 0
  {
    hide BitAt;
    Windows(data, p);
  }

  lemma DynamicSlot(j: nat)
    requires j < 18
    ensures Window(DynamicInput(), 17 + 3 * j, 3) == if j == 2 || j == 17 then 1 else 0
  {
    var d := DynamicInput();
    hide Window;
    hide BitAt;
    if 3 <= j < 17 {
      DynamicZeros(17 + 3 * j);
      DynamicZeros(18 + 3 * j);
      DynamicZeros(19 + 3 * j);
      WindowZero(d, 17 + 3 * j);
    } else {
    ByteBits(d, 2, 1, 0, 0, 0, 0, 0, 0, 1);
    ByteBits(d, 3, 0, 0, 0, 0, 0, 0, 0, 0);
    ByteBits(d, 8, 0, 0, 0, 0, 1, 0, 0, 1);
      Windows(d, 17);
      Windows(d, 20);
      Windows(d, 23);
      Windows(d, 68);
    }
  }

  lemma DynamicLengthLengths()
    ensures TwoCodes(LengthLengths(DynamicInput(), 17, 18), 1, 18)
  {
    var d := DynamicInput();
    hide LengthLengths;
    hide Window;
    hide DynamicInput;
    forall s | 0 <= s < 19
      ensures LengthLengths(d, 17, 18)[s] == if s == 1 || s == 18 then 1 else 0
    {
      LengthLengthsAt(d, 17, 18, s);
      var j := if s >= 16 then s - 16 else if s == 0 then 3 else if s >= 8 then 4 + 2 * (s - 8) else 5 + 2 * (7 - s);
      if j < 18 {
        DynamicSlot(j);
      }
    }
  }

  lemma DynamicBits()
    ensures var d := DynamicInput();
            && BitAt(d, 71) == 1 && Window(d, 72, 7) == 54 && BitAt(d, 79) == 0 && BitAt(d, 80) == 1 && Window(d, 81, 7) == 127
            && BitAt(d, 88) == 1 && Window(d, 89, 7) == 41 && BitAt(d, 96) == 0 && BitAt(d, 97) == 0
            && BitAt(d, 98) == 0 && BitAt(d, 99) == 1
  {
    var d := DynamicInput();
    hide BitAt;
    hide Window;
    ByteBits(d, 8, 0, 0, 0, 0, 1, 0, 0, 1);
    ByteBits(d, 9, 0, 1, 1, 0, 1, 1, 0, 0);
    ByteBits(d, 10, 1, 1, 1, 1, 1, 1, 1, 1);
    ByteBits(d, 11, 1, 1, 0, 0, 1, 0, 1, 0);
    ByteBits(d, 12, 0, 0, 0, 1, 0, 0, 0, 0);
    Windows(d, 72);
    Windows(d, 76);
    WindowJoin(d, 72, 3);
    Windows(d, 81);
    Windows(d, 85);
    WindowJoin(d, 81, 3);
    Windows(d, 89);
    Windows(d, 93);
    WindowJoin(d, 89, 3);
  }

  /** The first `n` code lengths: one bit for symbols 65 and 256 and for distance symbol 0. */
  function Listed(n: nat): (lens: seq<nat>)
    ensures |lens| == n && forall i :: 0 <= i < n ==> lens[i] == if i == 65 || i >= 256 then 1 else 0
  {
    seq(n, i => if i == 65 || i >= 256 then 1 else 0)
  }

  /** One listed length. */
  lemma ListOne(d: seq<byte>, cl: seq<nat>, p: nat, n: nat)
    requires TwoCodes(cl, 1, 18) && |cl| == 19 && n < 258 && BitAt(d, p) == 0 && (n == 65 || n >= 256)
    ensures ReadLengths(d, cl, p, 258, Listed(n)) == ReadLengths(d, cl, p + 1, 258, Listed(n + 1))
  {
    hide ReadLengths;
    hide SymbolAt;
    hide Kraft;
    TwoSymbols(d, p, cl, 1, 18);
    RepeatMeaning(d, cl, p, 258, Listed(n));
    assert Listed(n) + [1] == Listed(n + 1);
  }

  /** A run of zeros. */
  lemma ListZeros(d: seq<byte>, cl: seq<nat>, p: nat, n: nat, c: nat)
    requires TwoCodes(cl, 1, 18) && |cl| == 19 && BitAt(d, p) == 1 && c == 11 + Window(d, p + 1, 7)
    requires (n + c <= 65 || 65 < n) && n + c <= 256
    ensures ReadLengths(d, cl, p, 258, Listed(n)) == ReadLengths(d, cl, p + 8, 258, Listed(n + c))
  {
    hide ReadLengths;
    hide SymbolAt;
    hide Kraft;
    hide Window;
    TwoSymbols(d, p, cl, 1, 18);
    RepeatNumbers(d, p + 1);
    hide Repeat;
    hide RepeatBits;
    RepeatMeaning(d, cl, p, 258, Listed(n));
    assert Listed(n) + seq(c, i => 0) == Listed(n + c);
  }

  lemma ListDone(d: seq<byte>, cl: seq<nat>, p: nat)
    requires |cl| == 19
    ensures ReadLengths(d, cl, p, 258, Listed(258)) == SomeLengths(Listed(258), p)
  {
  }

  lemma DynamicList(cl: seq<nat>)
    requires TwoCodes(cl, 1, 18) && |cl| == 19
    ensures ReadLengths(DynamicInput(), cl, 71, 258, []) == SomeLengths(Listed(258), 98)
  {
    hide DynamicInput;
    hide BitAt;
    hide Window;
    hide ReadLengths;
    DynamicBits();
    var d := DynamicInput();
    ListDone(d, cl, 98);
    ListZeros(d, cl, 71, 0, 65);
    ListOne(d, cl, 79, 65);
    ListZeros(d, cl, 80, 66, 138);
    ListZeros(d, cl, 88, 204, 52);
    ListOne(d, cl, 96, 256);
    ListOne(d, cl, 97, 257);
    assert Listed(0) == [];
  }

  function DynamicCodes(): Codes {
    Codes(Listed(258)[..257], Listed(258)[257..])
  }

  lemma DynamicCodesAre()
    ensures var c := DynamicCodes(); TwoCodes(c.lit, 65, 256) && |c.lit| == 257 && c.dist == [1]
  {
  }

  lemma SingleCode()
    ensures Kraft([1])
  {
    KraftOnes([1]);
    CountRange([1], 1, 0, 1);
    assert Pow2(15) == 32768;
  }

  lemma DynamicHeaderRead()
    ensures DynamicHeader(DynamicInput(), 3) == Header(DynamicCodes(), 98)
  {
    var d := DynamicInput();
    DynamicCounts();
    DynamicLengthLengths();
    HeaderCounts(d, 3);
    var cl := LengthLengths(d, 17, 18);
    hide DynamicInput;
    hide DynamicHeader;
    hide LengthLengths;
    hide Window;
    hide ReadLengths;
    hide Kraft;
    DynamicList(cl);
    TwoSymbols(d, 0, cl, 1, 18);
    DynamicCodesAre();
    TwoSymbols(d, 0, DynamicCodes().lit, 65, 256);
    SingleCode();
  }

  lemma DynamicTokens()
    ensures TokensEnd(DynamicInput(), DynamicCodes(), 98, 0, [Literal(65)]) == 100
  {
    hide DynamicInput;
    hide DynamicCodes;
    hide StepAt;
    hide SymbolAt;
    hide BitAt;
    hide Window;
    hide Kraft;
    var d, c := DynamicInput(), DynamicCodes();
    DynamicBits();
    DynamicCodesAre();
    TwoSymbols(d, 98, c.lit, 65, 256);
    TwoSymbols(d, 99, c.lit, 65, 256);
    StepKinds(d, c, 98, 0);
    StepKinds(d, c, 99, 1);
    var ts: seq<Token> := [Literal(65)];
    assert ts[1..] == [];
    assert TokensEnd(d, c, 99, 1, []) == 100;
  }

  lemma DynamicStream()
    ensures StreamEnd(DynamicInput(), 0, 0, [Dynamic([Literal(65)])]) == 100
    ensures TotalSize([Dynamic([Literal(65)])]) == 1 && Output([], [Dynamic([Literal(65)])]) == [65]
  {
    var d := DynamicInput();
    DynamicCounts();
    DynamicHeaderRead();
    DynamicTokens();
    hide DynamicInput;
    hide DynamicHeader;
    hide TokensEnd;
    hide Window;
    var b := Dynamic([Literal(65)]);
    assert BlockEnd(d, 0, 0, b) == 100;
    assert [b][1..] == [] && b.tokens[1..] == [];
    assert Expand([], b.tokens) == [65] by {
      assert Expand([] + [65], []) == [65];
    }
  }

  /** One dynamic block, whose two symbols, 65 and the end, have one bit each. */
  method DecodeDynamic() returns (out: seq<byte>)
    ensures out == [65]
  {
    hide StreamEnd;
    hide StreamMeter;
    hide Output;
    hide TotalSize;
    hide ZlibHeader;
    DynamicStream();
    var obuf := new byte[1](_ => 0);
    var r := DecodeBuffer(obuf, DynamicInput(), false);
    ghost var bs := [Dynamic([Literal(65)])];
    assert Spells(DynamicInput(), false, bs) && TotalSize(bs) <= obuf.Length;
    out := if r >= 0 then obuf[..r] else [];
  }

  // ----- fixed blocks -----

  /** Literals, the end symbol and the first lengths of the fixed code, by the bits they are spelled
      with. */
  lemma FixedSymbols(data: seq<byte>, p: nat)
    ensures FixedLit()[256] == 7
    ensures 48 <= Msb(data, p, 8) < 192 ==>
              SymbolAt(data, p, FixedLit()) == Msb(data, p, 8) - 48 && FixedLit()[Msb(data, p, 8) - 48] == 8
    ensures Msb(data, p, 7) < 24 ==>
              SymbolAt(data, p, FixedLit()) == 256 + Msb(data, p, 7) && FixedLit()[256 + Msb(data, p, 7)] == 7
    ensures SymbolAt(data, p, FixedDist()) == Msb(data, p, 5) && Msb(data, p, 5) < 32 && FixedDist()[Msb(data, p, 5)] == 5
  {
    var a, b, c := Msb(data, p, 8), Msb(data, p, 7), Msb(data, p, 5);
    FixedCode(256);
    if 48 <= a < 192 {
      FixedCode(a - 48);
      SymbolAtIs(data, p, FixedLit(), a - 48);
    }
    if b < 24 {
      FixedCode(256 + b);
      SymbolAtIs(data, p, FixedLit(), 256 + b);
    }
    FiveBits(data, p);
    FixedDistCode(c);
    SymbolAtIs(data, p, FixedDist(), c);
  }

  lemma FiveBits(data: seq<byte>, p: nat)
    ensures Msb(data, p, 5) < 32
  {
    Tape.Codes(data, p);
  }

  lemma LiteralStep(data: seq<byte>, p: nat, n: nat)
    requires 48 <= Msb(data, p, 8) < 192
    ensures StepAt(data, FixedCodes(), p, n) == Next(Literal((Msb(data, p, 8) - 48) as byte), p + 8)
  {
    hide Msb;
    hide SymbolAt;
    hide FixedLit;
    FixedSymbols(data, p);
    StepKinds(data, FixedCodes(), p, n);
    hide StepAt;
  }

  lemma EndStep(data: seq<byte>, p: nat, n: nat)
    requires Msb(data, p, 7) == 0
    ensures StepAt(data, FixedCodes(), p, n) == EndOfBlock(p + 7)
  {
    hide Msb;
    hide SymbolAt;
    hide FixedLit;
    FixedSymbols(data, p);
    StepKinds(data, FixedCodes(), p, n);
    hide StepAt;
  }

  /** The letters a to f, and then 18 bytes copied from 6 before. */
  function FixedInput(): seq<byte> {
    [0x4B, 0x4C, 0x4A, 0x4E, 0x49, 0x4D, 0xC3, 0x24, 0x01]
  }

  function FixedTokens(): seq<Token> {
    [Literal(97), Literal(98), Literal(99), Literal(100), Literal(101), Literal(102), Match(18, 6)]
  }

  lemma FixedFront()
    ensures var d := FixedInput();
            && Window(d, 0, 1) == 1 && Window(d, 1, 2) == 1
            && Msb(d, 3, 8) == 145 && Msb(d, 11, 8) == 146 && Msb(d, 19, 8) == 147
  {
    var d := FixedInput();
    hide BitAt;
    hide Window;
    hide Msb;
    ByteBits(d, 0, 1, 1, 0, 1, 0, 0, 1, 0);
    ByteBits(d, 1, 0, 0, 1, 1, 0, 0, 1, 0);
    ByteBits(d, 2, 0, 1, 0, 1, 0, 0, 1, 0);
    ByteBits(d, 3, 0, 1, 1, 1, 0, 0, 1, 0);
    Windows(d, 0);
    Windows(d, 1);
    Tape.Codes(d, 3);
    Tape.Codes(d, 11);
    Tape.Codes(d, 19);
  }

  lemma FixedMiddle()
    ensures var d := FixedInput(); Msb(d, 27, 8) == 148 && Msb(d, 35, 8) == 149 && Msb(d, 43, 8) == 150
  {
    var d := FixedInput();
    hide BitAt;
    hide Msb;
    ByteBits(d, 3, 0, 1, 1, 1, 0, 0, 1, 0);
    ByteBits(d, 4, 1, 0, 0, 1, 0, 0, 1, 0);
    ByteBits(d, 5, 1, 0, 1, 1, 0, 0, 1, 0);
    ByteBits(d, 6, 1, 1, 0, 0, 0, 0, 1, 1);
    Tape.Codes(d, 27);
    Tape.Codes(d, 35);
    Tape.Codes(d, 43);
  }

  lemma FixedBack()
    ensures var d := FixedInput();
            && Msb(d, 51, 7) == 12 && Window(d, 58, 1) == 1 && Msb(d, 59, 5) == 4 && Window(d, 64, 1) == 1 && Msb(d, 65, 7) == 0
  {
    var d := FixedInput();
    hide BitAt;
    hide Window;
    hide Msb;
    ByteBits(d, 6, 1, 1, 0, 0, 0, 0, 1, 1);
    ByteBits(d, 7, 0, 0, 1, 0, 0, 1, 0, 0);
    ByteBits(d, 8, 1, 0, 0, 0, 0, 0, 0, 0);
    Tape.Codes(d, 51);
    Windows(d, 58);
    Tape.Codes(d, 59);
    Windows(d, 64);
    Tape.Codes(d, 65);
  }

  lemma MatchStep()
    ensures StepAt(FixedInput(), FixedCodes(), 51, 6) == Next(Match(18, 6), 65)
  {
    var d := FixedInput();
    FixedBack();
    hide FixedInput;
    hide Msb;
    hide Window;
    hide SymbolAt;
    hide FixedLit;
    hide FixedDist;
    FixedSymbols(d, 51);
    FixedSymbols(d, 59);
    LongLengthsAndDistances();
    StepKinds(d, FixedCodes(), 51, 6);
    hide StepAt;
    hide LengthBase;
    hide LengthExtra;
    hide DistBase;
    hide DistExtra;
  }

  lemma LongLengthsAndDistances()
    ensures LengthBase(11) == 17 && LengthExtra(11) == 1 && DistBase(4) == 5 && DistExtra(4) == 1
  {
    ShortLengths();
    NearDistances();
  }

  lemma FixedStream()
    ensures StreamEnd(FixedInput(), 0, 0, [Fixed(FixedTokens())]) == 72
  {
    var d, c, ts := FixedInput(), FixedCodes(), FixedTokens();
    FixedFront();
    FixedMiddle();
    FixedBack();
    hide FixedInput;
    hide Msb;
    hide Window;
    hide StepAt;
    hide FixedCodes;
    LiteralStep(d, 3, 0);
    LiteralStep(d, 11, 1);
    LiteralStep(d, 19, 2);
    LiteralStep(d, 27, 3);
    LiteralStep(d, 35, 4);
    LiteralStep(d, 43, 5);
    MatchStep();
    EndStep(d, 65, 24);
    assert TokensEnd(d, c, 65, 24, []) == 72;
    assert ts[6..][1..] == [] && TokensEnd(d, c, 51, 6, ts[6..]) == 72;
    assert ts[5..][1..] == ts[6..] && TokensEnd(d, c, 43, 5, ts[5..]) == 72;
    assert ts[4..][1..] == ts[5..] && TokensEnd(d, c, 35, 4, ts[4..]) == 72;
    assert ts[3..][1..] == ts[4..] && TokensEnd(d, c, 27, 3, ts[3..]) == 72;
    assert ts[2..][1..] == ts[3..] && TokensEnd(d, c, 19, 2, ts[2..]) == 72;
    assert ts[1..][1..] == ts[2..] && TokensEnd(d, c, 11, 1, ts[1..]) == 72;
    assert TokensEnd(d, c, 3, 0, ts) == 72;
    hide TokensEnd;
    assert BlockEnd(d, 0, 0, Fixed(ts)) == 72;
  }

  /** The alphabet's first six letters, four times. */
  function Letters(): seq<byte> {
    var abc: seq<byte> := [97, 98, 99, 100, 101, 102];
    abc + abc + abc + abc
  }

  function Literals(bytes: seq<byte>): (ts: seq<Token>)
    ensures |ts| == |bytes|
  {
    seq(|bytes|, i requires 0 <= i < |bytes| => Literal(bytes[i]))
  }

  lemma {:induction false} LiteralsMean(bytes: seq<byte>)
    ensures Expand([], Literals(bytes)) == bytes && Size(Literals(bytes)) == |bytes|
  {
    if bytes != [] {
      var n := |bytes| - 1;
      LiteralsMean(bytes[..n]);
      ExpandAppend([], Literals(bytes[..n]), Literal(bytes[n]));
      SizeAppend(Literals(bytes[..n]), Literal(bytes[n]));
      assert Literals(bytes) == Literals(bytes[..n]) + [Literal(bytes[n])];
      assert bytes == bytes[..n] + [bytes[n]];
    }
  }

  lemma CopiedLetters(r: seq<byte>, abc: seq<byte>)
    requires abc == [97, 98, 99, 100, 101, 102] && |r| == 24 && r[..6] == abc && forall i :: 6 <= i < 24 ==> r[i] == r[i - 6]
    ensures r == Letters()
  {
    assert forall i :: 0 <= i < 6 ==> r[i] == r[..6][i];
    assert r[6..12] == abc && r[12..18] == abc && r[18..24] == abc;
    assert r == r[..6] + r[6..12] + r[12..18] + r[18..24];
  }

  lemma FixedOutput()
    ensures TotalSize([Fixed(FixedTokens())]) == 24 && Output([], [Fixed(FixedTokens())]) == Letters()
  {
    var ts := FixedTokens();
    var abc: seq<byte> := [97, 98, 99, 100, 101, 102];
    LiteralsMean(abc);
    assert ts == Literals(abc) + [Match(18, 6)];
    ExpandAppend([], Literals(abc), Match(18, 6));
    SizeAppend(Literals(abc), Match(18, 6));
    CopyRepeats(abc, 6, 18);
    CopiedLetters(CopyFrom(abc, 6, 18), abc);
    hide CopyFrom;
    hide Expand;
    hide Size;
    hide Letters;
    assert [Fixed(ts)][1..] == [];
  }

  /** One fixed block: six literals, and a match with one extra bit in its length and one in its
      distance, which overlaps its own output. */
  method DecodeFixed() returns (out: seq<byte>)
    ensures out == Letters()
  {
    hide StreamEnd;
    hide StreamMeter;
    hide Output;
    hide TotalSize;
    hide ZlibHeader;
    FixedStream();
    FixedOutput();
    var obuf := new byte[24](_ => 0);
    var r := DecodeBuffer(obuf, FixedInput(), false);
    ghost var bs := [Fixed(FixedTokens())];
    assert Spells(FixedInput(), false, bs) && TotalSize(bs) <= obuf.Length;
    out := if r >= 0 then obuf[..r] else [];
  }

  // ----- an input cut short -----

  /** The letters a, b and c without the last two bits. */
  function ShortInput(): seq<byte> {
    [0x4B, 0x4C, 0x4A, 0x06]
  }

  lemma ShortBits()
    ensures var d := ShortInput();
            && Window(d, 0, 1) == 1 && Window(d, 1, 2) == 1
            && Msb(d, 3, 8) == 145 && Msb(d, 11, 8) == 146 && Msb(d, 19, 8) == 147 && Msb(d, 27, 7) == 0
  {
    var d := ShortInput();
    hide BitAt;
    hide Window;
    hide Msb;
    BitPastEnd(d, 32);
    BitPastEnd(d, 33);
    ByteBits(d, 0, 1, 1, 0, 1, 0, 0, 1, 0);
    ByteBits(d, 1, 0, 0, 1, 1, 0, 0, 1, 0);
    ByteBits(d, 2, 0, 1, 0, 1, 0, 0, 1, 0);
    ByteBits(d, 3, 0, 1, 1, 0, 0, 0, 0, 0);
    Windows(d, 0);
    Windows(d, 1);
    Tape.Codes(d, 3);
    Tape.Codes(d, 11);
    Tape.Codes(d, 19);
    Tape.Codes(d, 27);
  }

  function ShortTokens(): (ts: seq<Token>)
    ensures |ts| == 3 && ts[0] == Literal(97) && ts[1] == Literal(98) && ts[2] == Literal(99)
  {
    [Literal(97), Literal(98), Literal(99)]
  }

  lemma ShortSize()
    ensures TotalSize([Fixed(ShortTokens())]) == 3
  {
    var abc: seq<byte> := [97, 98, 99];
    LiteralsMean(abc);
    assert Literals(abc) == ShortTokens();
    assert [Fixed(ShortTokens())][1..] == [];
    hide Size;
  }

  lemma ShortStream()
    ensures StreamEnd(ShortInput(), 0, 0, [Fixed(ShortTokens())]) == 34
  {
    hide ShortInput;
    hide ShortTokens;
    hide Msb;
    hide Window;
    hide StepAt;
    hide FixedCodes;
    var d, c, ts := ShortInput(), FixedCodes(), ShortTokens();
    ShortBits();
    LiteralStep(d, 3, 0);
    LiteralStep(d, 11, 1);
    LiteralStep(d, 19, 2);
    EndStep(d, 27, 3);
    assert TokensEnd(d, c, 27, 3, []) == 34;
    assert ts[2..][1..] == [] && TokensEnd(d, c, 19, 2, ts[2..]) == 34;
    assert ts[1..][1..] == ts[2..] && TokensEnd(d, c, 11, 1, ts[1..]) == 34;
    assert TokensEnd(d, c, 3, 0, ts) == 34;
    hide TokensEnd;
    assert BlockEnd(d, 0, 0, Fixed(ts)) == 34;
  }

  /** The buffer as the letters and the end symbol are read. */
  lemma ShortSteps()
    ensures var d, c := ShortInput(), FixedCodes();
            && StepMeter(d, c, Meter(3, 4, false)) == Supplied(Meter(11, 4, false))
            && StepMeter(d, c, Meter(11, 4, false)) == Supplied(Meter(19, 4, false))
            && StepMeter(d, c, Meter(19, 4, false)) == Supplied(Meter(27, 6, true))
            && StepMeter(d, c, Meter(27, 6, true)) == Short
  {
    assert |ShortInput()| == 4;
    hide ShortInput;
    hide Msb;
    hide Window;
    hide StepMeter;
    hide FixedCodes;
    var d := ShortInput();
    ShortBits();
    LiteralMeter(d, Meter(3, 4, false));
    LiteralMeter(d, Meter(11, 4, false));
    LiteralMeter(d, Meter(19, 4, false));
    EndMeter(d, Meter(27, 6, true));
  }

  lemma LiteralMeter(data: seq<byte>, m: Meter)
    requires 48 <= Msb(data, m.p, 8) < 192
    ensures StepMeter(data, FixedCodes(), m) == Symbol(|data|, m, 8)
  {
    hide Msb;
    hide SymbolAt;
    hide FixedLit;
    hide FixedDist;
    hide Topped;
    FixedSymbols(data, m.p);
  }

  lemma EndMeter(data: seq<byte>, m: Meter)
    requires Msb(data, m.p, 7) == 0
    ensures StepMeter(data, FixedCodes(), m) ==
            match Symbol(|data|, m, 7) case Short => Short case Supplied(next) => AtEnd(next)
  {
    hide Msb;
    hide SymbolAt;
    hide FixedLit;
    hide FixedDist;
    hide Topped;
    FixedSymbols(data, m.p);
  }

  /** Four bytes fill the bit buffer once; the 16 implicit bits are added for the third letter, and
      the end symbol takes two of them. */
  lemma ShortMeter()
    ensures StreamMeter(ShortInput(), Meter(0, 0, false), [Fixed(ShortTokens())]) == Short
  {
    hide ShortInput;
    hide ShortTokens;
    hide StepMeter;
    hide FixedCodes;
    var d, c, ts := ShortInput(), FixedCodes(), ShortTokens();
    ShortSteps();
    assert TokensMeter(d, c, Meter(27, 6, true), []) == Short;
    assert ts[2..][1..] == [] && TokensMeter(d, c, Meter(19, 4, false), ts[2..]) == Short;
    assert ts[1..][1..] == ts[2..] && TokensMeter(d, c, Meter(11, 4, false), ts[1..]) == Short;
    assert TokensMeter(d, c, Meter(3, 4, false), ts) == Short;
    hide TokensMeter;
    assert Take(Take(Meter(0, 0, false), 1), 2) == Meter(3, 4, false);
  }

  /** An input whose last symbol is cut off is refused, although the zeros after it would spell the
      rest. */
  method RefuseShort() returns (r: int)
    ensures r == -1
  {
    hide StreamEnd;
    hide StreamMeter;
    hide Output;
    hide TotalSize;
    hide ZlibHeader;
    ShortStream();
    ShortSize();
    ShortMeter();
    var obuf := new byte[3](_ => 0);
    r := DecodeBuffer(obuf, ShortInput(), false);
    ghost var bs := [Fixed(ShortTokens())];
    assert Spells(ShortInput(), false, bs) && TotalSize(bs) <= obuf.Length;
  }
}
