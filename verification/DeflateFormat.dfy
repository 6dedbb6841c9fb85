/** The DEFLATE format (section 3.2 of RFC 1951) as a relation between the bits of a
    zero-extended buffer and a list of blocks, and the bytes that a list of blocks means.
    The `...End` functions give the bit position where a value ends if it is what the bits at
    `p` spell, and -1 if it is not. `n` counts the bytes already produced. */
module DeflateFormat {
  import opened Words
  import opened BitStream
  import opened Canonical

  datatype Token = Literal(b: byte) | Match(len: nat, dist: nat)
  datatype Block = Stored(bytes: seq<byte>) | Fixed(tokens: seq<Token>) | Dynamic(tokens: seq<Token>)
  datatype Codes = Codes(lit: seq<nat>, dist: seq<nat>)

  // ----- meaning -----

  /** Appends `len` bytes, each a copy of the byte `dist` before it. */
  function CopyFrom(out: seq<byte>, dist: nat, len: nat): seq<byte>
    requires 1 <= dist <= |out|
    decreases len
  {
    if len == 0 then out else CopyFrom(out + [out[|out| - dist]], dist, len - 1)
  }

  function Emit(out: seq<byte>, t: Token): seq<byte> {
    match t
    case Literal(b) => out + [b]
    case Match(len, dist) => if 1 <= dist <= |out| then CopyFrom(out, dist, len) else out
  }

  function Expand(out: seq<byte>, ts: seq<Token>): seq<byte>
    decreases |ts|
  {
    if ts == [] then out else Expand(Emit(out, ts[0]), ts[1..])
  }

  function BlockOutput(out: seq<byte>, b: Block): seq<byte> {
    match b
    case Stored(bytes) => out + bytes
    case Fixed(ts) => Expand(out, ts)
    case Dynamic(ts) => Expand(out, ts)
  }

  function Output(out: seq<byte>, bs: seq<Block>): seq<byte>
    decreases |bs|
  {
    if bs == [] then out else Output(BlockOutput(out, bs[0]), bs[1..])
  }

  function Length(t: Token): nat {
    match t
    case Literal(_) => 1
    case Match(len, _) => len
  }

  function Size(ts: seq<Token>): nat {
    if ts == [] then 0 else Length(ts[0]) + Size(ts[1..])
  }

  function BlockSize(b: Block): nat {
    match b
    case Stored(bytes) => |bytes|
    case Fixed(ts) => Size(ts)
    case Dynamic(ts) => Size(ts)
  }

  function TotalSize(bs: seq<Block>): nat {
    if bs == [] then 0 else BlockSize(bs[0]) + TotalSize(bs[1..])
  }

  // ----- tables -----

  /** Base lengths and extra bits of length symbols `257 + i` (section 3.2.5 of RFC 1951):
      eight single lengths, then groups of four with one more extra bit each, then 258. */
  function LengthExtra(i: nat): nat
    requires i < 29
  {
    if i < 8 || i == 28 then 0 else i / 4 - 1
  }

  function LengthBase(i: nat): nat
    requires i < 29
  {
    if i == 28 then 258 else if i < 8 then 3 + i else 3 + Shl(4 + i % 4, i / 4 - 1)
  }

  /** Base distances and extra bits of distance symbol `i`: four single distances, then pairs. */
  function DistExtra(i: nat): nat
    requires i < 30
  {
    if i < 4 then 0 else i / 2 - 1
  }

  function DistBase(i: nat): nat
    requires i < 30
  {
    if i < 4 then 1 + i else 1 + Shl(2 + i % 2, i / 2 - 1)
  }

  const ORDER: seq<nat> := [16, 17, 18, 0, 8, 7, 9, 6, 10, 5, 11, 4, 12, 3, 13, 2, 14, 1, 15]

  function FixedLit(): (lens: seq<nat>)
    ensures |lens| == 288
  {
    seq(288, i => if i < 144 then 8 else if i < 256 then 9 else if i < 280 then 7 else 8)
  }

  function FixedDist(): (lens: seq<nat>)
    ensures |lens| == 32
  {
    seq(32, i => 5)
  }

  function FixedCodes(): Codes {
    Codes(FixedLit(), FixedDist())
  }

  /** The ranges of successive length codes, and of successive distance codes, adjoin: lengths
      3 to 257 and distances 1 to 32768 each have exactly one code (258 also has its own). */
  lemma LengthsTile(i: nat)
    requires i < 28
    ensures LengthBase(i) + Pow2(LengthExtra(i)) == if i == 27 then 259 else LengthBase(i + 1)
  {
    if i >= 8 {
      hide Shl;
      hide Pow2;
      var r, e := i % 4, i / 4 - 1;
      ShlOne(e);
      ShlAdd(4 + r, 1, e);
      if r == 3 {
        assert (i + 1) % 4 == 0 && (i + 1) / 4 - 1 == e + 1;
        ShlDouble(4, e);
        Shl256();
      } else {
        assert (i + 1) % 4 == r + 1 && (i + 1) / 4 - 1 == e;
      }
    } else {
      assert Shl(4, 1) == 8;
    }
  }

  lemma Shl256()
    ensures Shl(4, 6) == 256 && Shl(2, 14) == 32768
  {
  }

  lemma DistsTile(i: nat)
    requires i < 30
    ensures DistBase(i) + Pow2(DistExtra(i)) == if i == 29 then 32769 else DistBase(i + 1)
  {
    if i < 4 {
      assert Shl(2, 1) == 4;
    } else {
      DistPairsTile(i);
    }
  }

  lemma DistPairsTile(i: nat)
    requires 4 <= i < 30
    ensures DistBase(i) + Pow2(DistExtra(i)) == if i == 29 then 32769 else DistBase(i + 1)
  {
    hide Shl;
    hide Pow2;
    var e, r := i / 2 - 1, i % 2;
    assert i == 2 * e + 2 + r;
    DistPair(e, r);
    Shl256();
  }

  lemma DistPair(e: nat, r: nat)
    requires r < 2
    ensures Shl(2 + r, e) + Pow2(e) == if r == 1 then Shl(2, e + 1) else Shl(3, e)
  {
    hide Shl;
    ShlOne(e);
    ShlAdd(2 + r, 1, e);
    ShlDouble(2, e);
  }

  // ----- symbols and tokens in the bit stream -----

  /** The symbol spelled at `p`, or -1. */
  ghost function SymbolAt(data: seq<byte>, p: nat, lens: seq<nat>): (r: int)
    ensures -1 <= r < |lens|
  {
    if exists s: nat :: Spelled(data, p, lens, s) then
      var s: nat :| Spelled(data, p, lens, s); s
    else -1
  }

  lemma SymbolAtIs(data: seq<byte>, p: nat, lens: seq<nat>, s: nat)
    requires Spelled(data, p, lens, s)
    ensures SymbolAt(data, p, lens) == s
  {
    SpelledUnique(data, p, lens, s, SymbolAt(data, p, lens));
  }

  datatype Step = Bad | EndOfBlock(q: nat) | Next(t: Token, q: nat)

  /** What is spelled at `p` in a compressed block. */
  ghost function StepAt(data: seq<byte>, c: Codes, p: nat, n: nat): Step {
    var z := SymbolAt(data, p, c.lit);
    if z < 0 then Bad
    else
      var q := p + c.lit[z];
      if z < 256 then Next(Literal(z), q)
      else if z == 256 then EndOfBlock(q)
      else if z >= 286 then Bad
      else MatchAt(data, c, q, n, z - 257)
  }

  /** The rest of a match whose length symbol is `257 + i`. */
  ghost function MatchAt(data: seq<byte>, c: Codes, p: nat, n: nat, i: nat): Step
    requires i < 29
  {
    var len := LengthBase(i) + Window(data, p, LengthExtra(i));
    var q := p + LengthExtra(i);
    var y := SymbolAt(data, q, c.dist);
    if y < 0 || y >= 30 then Bad
    else
      var d := DistBase(y) + Window(data, q + c.dist[y], DistExtra(y));
      if d > n then Bad else Next(Match(len, d), q + c.dist[y] + DistExtra(y))
  }

  /** Where the tokens `ts` and their end-of-block symbol end, if that is what is spelled. */
  ghost function TokensEnd(data: seq<byte>, c: Codes, p: nat, n: nat, ts: seq<Token>): int
    decreases |ts|
  {
    match StepAt(data, c, p, n)
    case Bad => -1
    case EndOfBlock(q) => if ts == [] then q else -1
    case Next(t, q) =>
      if ts != [] && ts[0] == t then TokensEnd(data, c, q, n + Length(t), ts[1..]) else -1
  }

  // ----- block headers -----

  datatype Lengths? = NoLengths | SomeLengths(lens: seq<nat>, q: nat)
  datatype Header = NoHeader | Header(codes: Codes, q: nat)

  /** The first `k` code lengths of the code length alphabet, three bits each, in `ORDER`. */
  function LengthLengths(data: seq<byte>, p: nat, k: nat): (lens: seq<nat>)
    requires k <= 19
    ensures |lens| == 19
  {
    if k == 0 then seq(19, i => 0)
    else LengthLengths(data, p, k - 1)[ORDER[k - 1] := Window(data, p + 3 * (k - 1), 3)]
  }

  /** How many more entries the repeat symbol `z` stands for. */
  function Repeat(data: seq<byte>, p: nat, z: int): nat {
    if z == 16 then Window(data, p, 2) + 3
    else if z == 17 then Window(data, p, 3) + 3
    else Window(data, p, 7) + 11
  }

  function RepeatBits(z: int): nat {
    if z == 16 then 2 else if z == 17 then 3 else 7
  }

  /** The run-length coded list of `total` code lengths, of which `acc` are already known. */
  ghost function ReadLengths(data: seq<byte>, cl: seq<nat>, p: nat, total: nat, acc: seq<nat>): Lengths?
    requires |cl| == 19 && |acc| <= total
    decreases total - |acc|
  {
    if |acc| == total then SomeLengths(acc, p)
    else
      var z := SymbolAt(data, p, cl);
      if z < 0 then NoLengths
      else
        var q := p + cl[z];
        if z < 16 then ReadLengths(data, cl, q, total, acc + [z])
        else
          var c := Repeat(data, q, z);
          if (z == 16 && acc == []) || c > total - |acc| then NoLengths
          else
            var fill := if z == 16 then acc[|acc| - 1] else 0;
            ReadLengths(data, cl, q + RepeatBits(z), total, acc + seq(c, i => fill))
  }

  /** The two codes whose lengths are listed at `p` in the code length code `cl`. */
  ghost function ListedCodes(data: seq<byte>, cl: seq<nat>, p: nat, hlit: nat, hdist: nat): Header
    requires |cl| == 19
  {
    if !Kraft(cl) then NoHeader
    else
      match ReadLengths(data, cl, p, hlit + hdist, [])
      case NoLengths => NoHeader
      case SomeLengths(lens, q) =>
        if |lens| >= hlit && Kraft(lens[..hlit]) && Kraft(lens[hlit..]) then Header(Codes(lens[..hlit], lens[hlit..]), q)
        else NoHeader
  }

  /** The two codes that a dynamic block declares. */
  ghost function DynamicHeader(data: seq<byte>, p: nat): Header {
    var hlit, hdist, hclen := Window(data, p, 5) + 257, Window(data, p + 5, 5) + 1, Window(data, p + 10, 4) + 4;
    CountBounds(data, p);
    ListedCodes(data, LengthLengths(data, p + 14, hclen), p + 14 + 3 * hclen, hlit, hdist)
  }

  lemma CountBounds(data: seq<byte>, p: nat)
    ensures Window(data, p, 5) < 32 && Window(data, p + 5, 5) < 32 && Window(data, p + 10, 4) < 16
  {
    WindowBound(data, p, 5);
    WindowBound(data, p + 5, 5);
    WindowBound(data, p + 10, 4);
    assert Pow2(5) == 32 && Pow2(4) == 16;
  }

  // ----- blocks and streams -----

  function ByteBoundary(p: nat): nat {
    (p + 7) / 8 * 8
  }

  /** Where a stored block's contents end: length, its complement, and the bytes themselves. */
  function StoredEnd(data: seq<byte>, p: nat, bytes: seq<byte>): int {
    var a := ByteBoundary(p);
    if && Window(data, a, 16) == |bytes|
       && Window(data, a + 16, 16) == 0xffff - |bytes|
       && (forall i :: 0 <= i < |bytes| ==> bytes[i] == Window(data, a + 32 + 8 * i, 8))
    then a + 32 + 8 * |bytes| else -1
  }

  ghost function BlockEnd(data: seq<byte>, p: nat, n: nat, b: Block): int {
    var kind := Window(data, p + 1, 2);
    match b
    case Stored(bytes) => if kind == 0 then StoredEnd(data, p + 3, bytes) else -1
    case Fixed(ts) => if kind == 1 then TokensEnd(data, FixedCodes(), p + 3, n, ts) else -1
    case Dynamic(ts) =>
      if kind != 2 then -1
      else
        match DynamicHeader(data, p + 3)
        case NoHeader => -1
        case Header(codes, q) => TokensEnd(data, codes, q, n, ts)
  }

  /** Where the blocks `bs` end, if they are what is spelled: the last one, and no other, is
      marked final. */
  ghost function StreamEnd(data: seq<byte>, p: nat, n: nat, bs: seq<Block>): int
    decreases |bs|
  {
    if bs == [] then -1
    else
      var q := BlockEnd(data, p, n, bs[0]);
      if q < 0 then -1
      else if Window(data, p, 1) == 1 then (if |bs| == 1 then q else -1)
      else StreamEnd(data, q, n + BlockSize(bs[0]), bs[1..])
  }

  // ----- at most one reading -----

  lemma {:induction false} TokensUnique(data: seq<byte>, c: Codes, p: nat, n: nat, ts: seq<Token>, us: seq<Token>)
    requires TokensEnd(data, c, p, n, ts) >= 0 && TokensEnd(data, c, p, n, us) >= 0
    ensures ts == us
    decreases |ts|
  {
    hide StepAt;
    var s := StepAt(data, c, p, n);
    if s.Next? {
      TokensUnique(data, c, s.q, n + Length(s.t), ts[1..], us[1..]);
      assert ts == [ts[0]] + ts[1..] && us == [us[0]] + us[1..];
    }
  }

  lemma BlockUnique(data: seq<byte>, p: nat, n: nat, a: Block, b: Block)
    requires BlockEnd(data, p, n, a) >= 0 && BlockEnd(data, p, n, b) >= 0
    ensures a == b
  {
    hide DynamicHeader;
    hide TokensEnd;
    match a
    case Stored(bytes) =>
      assert b.Stored?;
      assert bytes == b.bytes;
    case Fixed(ts) => TokensUnique(data, FixedCodes(), p + 3, n, ts, b.tokens);
    case Dynamic(ts) =>
      var h := DynamicHeader(data, p + 3);
      TokensUnique(data, h.codes, h.q, n, ts, b.tokens);
  }

  /** A bit string spells at most one list of blocks. */
  lemma {:induction false} StreamUnique(data: seq<byte>, p: nat, n: nat, bs: seq<Block>, cs: seq<Block>)
    ensures StreamEnd(data, p, n, bs) >= 0 && StreamEnd(data, p, n, cs) >= 0 ==> bs == cs
    decreases |bs|
  {
    hide BlockEnd;
    if StreamEnd(data, p, n, bs) >= 0 && StreamEnd(data, p, n, cs) >= 0 {
      BlockUnique(data, p, n, bs[0], cs[0]);
      assert bs == [bs[0]] + bs[1..] && cs == [cs[0]] + cs[1..];
      if Window(data, p, 1) != 1 {
        StreamUnique(data, BlockEnd(data, p, n, bs[0]), n + BlockSize(bs[0]), bs[1..], cs[1..]);
      }
    }
  }

  // ----- positions only move forward -----

  lemma StepForward(data: seq<byte>, c: Codes, p: nat, n: nat)
    ensures var s := StepAt(data, c, p, n); !s.Bad? ==> s.q >= p
  {
  }

  lemma {:induction false} TokensForward(data: seq<byte>, c: Codes, p: nat, n: nat, ts: seq<Token>)
    ensures var q := TokensEnd(data, c, p, n, ts); q >= 0 ==> q >= p
    decreases |ts|
  {
    hide StepAt;
    var s := StepAt(data, c, p, n);
    StepForward(data, c, p, n);
    if s.Next? && ts != [] {
      TokensForward(data, c, s.q, n + Length(s.t), ts[1..]);
    }
  }

  lemma {:induction false} ReadLengthsForward(data: seq<byte>, cl: seq<nat>, p: nat, total: nat, acc: seq<nat>)
    requires |cl| == 19 && |acc| <= total
    ensures var r := ReadLengths(data, cl, p, total, acc); r.SomeLengths? ==> r.q >= p && |r.lens| == total
    decreases total - |acc|
  {
    hide SymbolAt;
    hide Window;
    if |acc| < total {
      var z := SymbolAt(data, p, cl);
      if z >= 0 {
        var q := p + cl[z];
        if z < 16 {
          ReadLengthsForward(data, cl, q, total, acc + [z]);
        } else {
          var c := Repeat(data, q, z);
          if !((z == 16 && acc == []) || c > total - |acc|) {
            var fill := if z == 16 then acc[|acc| - 1] else 0;
            ReadLengthsForward(data, cl, q + RepeatBits(z), total, acc + seq(c, i => fill));
          }
        }
      }
    }
  }

  lemma BlockForward(data: seq<byte>, p: nat, n: nat, b: Block)
    ensures var q := BlockEnd(data, p, n, b); q >= 0 ==> q >= p + 3
  {
    hide DynamicHeader;
    hide TokensEnd;
    match b
    case Stored(_) =>
    case Fixed(ts) => TokensForward(data, FixedCodes(), p + 3, n, ts);
    case Dynamic(ts) =>
      var h := DynamicHeader(data, p + 3);
      if h.Header? {
        HeaderForward(data, p + 3);
        TokensForward(data, h.codes, h.q, n, ts);
      }
  }

  lemma HeaderForward(data: seq<byte>, p: nat)
    ensures var h := DynamicHeader(data, p); h.Header? ==> h.q >= p
  {
    hide Window;
    hide LengthLengths;
    hide ReadLengths;
    var hlit, hdist, hclen := Window(data, p, 5) + 257, Window(data, p + 5, 5) + 1, Window(data, p + 10, 4) + 4;
    CountBounds(data, p);
    ReadLengthsForward(data, LengthLengths(data, p + 14, hclen), p + 14 + 3 * hclen, hlit + hdist, []);
  }

  lemma {:induction false} StreamForward(data: seq<byte>, p: nat, n: nat, bs: seq<Block>)
    ensures var q := StreamEnd(data, p, n, bs); q >= 0 ==> q >= p
    decreases |bs|
  {
    hide BlockEnd;
    if bs != [] {
      BlockForward(data, p, n, bs[0]);
      var q := BlockEnd(data, p, n, bs[0]);
      if q >= 0 {
        StreamForward(data, q, n + BlockSize(bs[0]), bs[1..]);
      }
    }
  }

  // ----- sizes -----

  lemma {:induction false} CopyLength(out: seq<byte>, dist: nat, len: nat)
    requires 1 <= dist <= |out|
    ensures |CopyFrom(out, dist, len)| == |out| + len
    decreases len
  {
    if len > 0 {
      CopyLength(out + [out[|out| - dist]], dist, len - 1);
    }
  }

  /** The copy keeps what was there, and every new byte repeats the one `dist` before it, even
      where source and destination overlap. */
  lemma {:induction false} CopyRepeats(out: seq<byte>, dist: nat, len: nat)
    requires 1 <= dist <= |out|
    ensures var r := CopyFrom(out, dist, len);
            |r| == |out| + len && r[..|out|] == out && forall i :: |out| <= i < |r| ==> r[i] == r[i - dist]
    decreases len
  {
    if len > 0 {
      var out' := out + [out[|out| - dist]];
      CopyRepeats(out', dist, len - 1);
      var r := CopyFrom(out, dist, len);
      assert r[..|out'|] == out';
      assert r[..|out|] == out'[..|out|] == out;
      assert r[|out|] == out'[|out|] && r[|out| - dist] == out'[|out| - dist];
    }
  }

  lemma {:induction false} ExpandAppend(out: seq<byte>, ts: seq<Token>, t: Token)
    ensures Expand(out, ts + [t]) == Emit(Expand(out, ts), t)
    decreases |ts|
  {
    if ts == [] {
      assert [t][1..] == [];
    } else {
      assert (ts + [t])[1..] == ts[1..] + [t];
      ExpandAppend(Emit(out, ts[0]), ts[1..], t);
    }
  }

  lemma {:induction false} OutputAppend(out: seq<byte>, bs: seq<Block>, b: Block)
    ensures Output(out, bs + [b]) == BlockOutput(Output(out, bs), b)
    decreases |bs|
  {
    if bs == [] {
      assert [b][1..] == [];
    } else {
      assert (bs + [b])[1..] == bs[1..] + [b];
      OutputAppend(BlockOutput(out, bs[0]), bs[1..], b);
    }
  }

  lemma {:induction false} SizeAppend(ts: seq<Token>, t: Token)
    ensures Size(ts + [t]) == Size(ts) + Length(t)
  {
    if ts == [] {
      assert [t][1..] == [];
    } else {
      assert (ts + [t])[1..] == ts[1..] + [t];
      SizeAppend(ts[1..], t);
    }
  }

  lemma {:induction false} TotalSizeAppend(bs: seq<Block>, b: Block)
    ensures TotalSize(bs + [b]) == TotalSize(bs) + BlockSize(b)
  {
    if bs == [] {
      assert [b][1..] == [];
    } else {
      assert (bs + [b])[1..] == bs[1..] + [b];
      TotalSizeAppend(bs[1..], b);
    }
  }

  // ----- partial readings -----

  /** The tokens `ts`, with no end of block after them, are spelled from `p` to `q`. */
  ghost predicate TokensSpelled(data: seq<byte>, c: Codes, p: nat, n: nat, ts: seq<Token>, q: nat)
    decreases |ts|
  {
    if ts == [] then q == p
    else
      var s := StepAt(data, c, p, n);
      s.Next? && s.t == ts[0] && TokensSpelled(data, c, s.q, n + Length(s.t), ts[1..], q)
  }

  lemma {:induction false} TokensSpelledAppend(data: seq<byte>, c: Codes, p: nat, n: nat, ts: seq<Token>, q: nat, m: nat)
    requires TokensSpelled(data, c, p, n, ts, q) && m == n + Size(ts)
    ensures var s := StepAt(data, c, q, m);
            && (s.Next? ==> TokensSpelled(data, c, p, n, ts + [s.t], s.q))
            && (s.EndOfBlock? ==> TokensEnd(data, c, p, n, ts) == s.q)
    decreases |ts|
  {
    hide StepAt;
    if ts != [] {
      var s, s' := StepAt(data, c, p, n), StepAt(data, c, q, m);
      TokensSpelledAppend(data, c, s.q, n + Length(s.t), ts[1..], q, m);
      if s'.Next? {
        assert (ts + [s'.t])[1..] == ts[1..] + [s'.t];
      }
    }
  }

  /** The blocks `bs`, none of them final, are spelled from `p` to `q`. */
  ghost predicate BlocksSpelled(data: seq<byte>, p: nat, n: nat, bs: seq<Block>, q: nat)
    decreases |bs|
  {
    if bs == [] then q == p
    else
      var e := BlockEnd(data, p, n, bs[0]);
      e >= 0 && Window(data, p, 1) != 1 && BlocksSpelled(data, e, n + BlockSize(bs[0]), bs[1..], q)
  }

  lemma {:induction false} BlocksSpelledAppend(data: seq<byte>, p: nat, n: nat, bs: seq<Block>, q: nat, m: nat, b: Block)
    requires BlocksSpelled(data, p, n, bs, q) && m == n + TotalSize(bs)
    ensures var e := BlockEnd(data, q, m, b);
            e >= 0 ==> if Window(data, q, 1) == 1 then StreamEnd(data, p, n, bs + [b]) == e
                       else BlocksSpelled(data, p, n, bs + [b], e)
    decreases |bs|
  {
    hide BlockEnd;
    if bs != [] {
      BlocksSpelledAppend(data, BlockEnd(data, p, n, bs[0]), n + BlockSize(bs[0]), bs[1..], q, m, b);
      assert (bs + [b])[1..] == bs[1..] + [b];
    }
  }
}
