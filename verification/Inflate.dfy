/** The block parsers and the block loop of the inflater. */
module Inflate {
  import opened Words
  import opened BitStream
  import opened Canonical
  import opened ZHuffman
  import opened DeflateFormat
  import opened ZStream
  import opened Overrun
  import opened Metering

  const LENGTH_BASE: seq<nat> := [
    3, 4, 5, 6, 7, 8, 9, 10, 11, 13, 15, 17, 19, 23, 27, 31, 35, 43, 51, 59,
    67, 83, 99, 115, 131, 163, 195, 227, 258, 0, 0]
  const LENGTH_EXTRA: seq<nat> := [
    0, 0, 0, 0, 0, 0, 0, 0, 1, 1, 1, 1, 2, 2, 2, 2, 3, 3, 3, 3, 4, 4, 4, 4, 5, 5, 5, 5, 0, 0, 0]
  const DIST_BASE: seq<nat> := [
    1, 2, 3, 4, 5, 7, 9, 13, 17, 25, 33, 49, 65, 97, 129, 193, 257, 385, 513, 769,
    1025, 1537, 2049, 3073, 4097, 6145, 8193, 12289, 16385, 24577, 0, 0]
  const DIST_EXTRA: seq<nat> := [
    0, 0, 0, 0, 1, 1, 2, 2, 3, 3, 4, 4, 5, 5, 6, 6, 7, 7, 8, 8, 9, 9, 10, 10, 11, 11, 12, 12, 13, 13, 0, 0]

  function LengthRow(i: nat): (r: (nat, nat))
    requires i < 29
  {
    (LENGTH_BASE[i], LENGTH_EXTRA[i])
  }

  function DistRow(i: nat): (r: (nat, nat))
    requires i < 30
  {
    (DIST_BASE[i], DIST_EXTRA[i])
  }

  /** The decoder's tables are those that the format's grouping rule gives. */
  lemma LengthTable(i: nat)
    requires i < 29
    ensures LengthRow(i) == (LengthBase(i), LengthExtra(i)) && LengthBase(i) >= 3 && LengthExtra(i) <= 5
  {
    if i < 16 {
      ShortLengths();
    } else {
      LongLengths();
    }
    hide LengthBase;
  }

  lemma ShortLengths()
    ensures LengthBase(8) == 11 && LengthBase(9) == 13 && LengthBase(10) == 15 && LengthBase(11) == 17
    ensures LengthBase(12) == 19 && LengthBase(13) == 23 && LengthBase(14) == 27 && LengthBase(15) == 31
    ensures forall i :: 0 <= i < 8 ==> LengthBase(i) == 3 + i
  {
  }

  lemma LongLengths()
    ensures LengthBase(16) == 35 && LengthBase(17) == 43 && LengthBase(18) == 51 && LengthBase(19) == 59
    ensures LengthBase(20) == 67 && LengthBase(21) == 83 && LengthBase(22) == 99 && LengthBase(23) == 115
    ensures LengthBase(24) == 131 && LengthBase(25) == 163 && LengthBase(26) == 195 && LengthBase(27) == 227
    ensures LengthBase(28) == 258
  {
  }

  lemma DistTable(i: nat)
    requires i < 30
    ensures DistRow(i) == (DistBase(i), DistExtra(i)) && DistBase(i) >= 1 && DistExtra(i) <= 13
  {
    if i < 16 {
      NearDistances();
    } else {
      FarDistances();
    }
    hide DistBase;
  }

  lemma NearDistances()
    ensures DistBase(4) == 5 && DistBase(5) == 7 && DistBase(6) == 9 && DistBase(7) == 13 && DistBase(8) == 17
    ensures DistBase(9) == 25 && DistBase(10) == 33 && DistBase(11) == 49 && DistBase(12) == 65 && DistBase(13) == 97
    ensures DistBase(14) == 129 && DistBase(15) == 193
    ensures forall i :: 0 <= i < 4 ==> DistBase(i) == 1 + i
  {
  }

  lemma FarDistances()
    ensures DistBase(16) == 257 && DistBase(17) == 385 && DistBase(18) == 513 && DistBase(19) == 769
    ensures DistBase(20) == 1025 && DistBase(21) == 1537 && DistBase(22) == 2049 && DistBase(23) == 3073
    ensures DistBase(24) == 4097 && DistBase(25) == 6145 && DistBase(26) == 8193 && DistBase(27) == 12289
    ensures DistBase(28) == 16385 && DistBase(29) == 24577
  {
  }

  // ----- compressed data -----

  datatype Read = Failed | EndSymbol | Token(t: DeflateFormat.Token)

  /** What the reader reports agrees with what is spelled at the old cursor. It fails exactly
      if nothing is, or if it runs short; and then it is starved before the end, or at it. */
  ghost predicate Agrees(r: Read, s: Step, v: Supply, m: Meter, starved: bool) {
    match r
    case Failed => s.Bad? || (v.Short? && starved && s.q >= m.p)
    case EndSymbol => s == EndOfBlock(m.p) && v == Supplied(m) && !starved
    case Token(t) => s == Next(t, m.p) && v == Supplied(m)
  }

  /** Both codes are built, and they are `c`. */
  ghost predicate Ready(a: Zbuf, c: Codes)
    reads a, a.zLength, a.zLength.Tables(), a.zDistance, a.zDistance.Tables()
  {
    a.zLength.Built() && a.zDistance.Built() && c == Codes(a.zLength.lens, a.zDistance.lens)
  }

  method ReadToken(a: Zbuf, ghost c: Codes) returns (r: Read)
    requires a.Valid() && Ready(a, c)
    modifies a`pos, a`numBits, a`codeBuffer, a`hitZeofOnce, a`p, a`fetched, a`zeros
    ensures a.Valid() && Ready(a, c)
    ensures Agrees(r, StepAt(a.data, c, old(a.p), a.zout), StepMeter(a.data, c, old(a.Now())), a.Now(), a.Starved())
    ensures r.Token? ==> Length(r.t) >= 1 && (r.t.Match? ==> 1 <= r.t.dist <= a.zout)
  {
    hide MatchAt;
    hide MatchMeter;
    hide Topped;
    hide Spelled;
    hide Huffman.Built;
    var z := a.Decode(a.zLength);
    SymbolAtAgrees(a.data, old(a.p), c.lit, z, a.Starved() && Topped(|a.data|, old(a.Now())).Short?);
    if z < 256 {
      if z < 0 {
        StepForward(a.data, c, old(a.p), a.zout);
        return Failed;
      }
      return Token(Literal(z));
    }
    if z == 256 {
      if a.hitZeofOnce && a.numBits < 16 {
        return Failed;
      }
      return EndSymbol;
    }
    if z >= 286 {
      return Failed;
    }
    r := ReadMatch(a, c, z - 257);
  }

  /** A base value plus its extra bits, read only if there are any. */
  method ReadExtra(a: Zbuf, base: nat, extra: nat) returns (v: nat)
    requires a.Reader() && extra <= 24
    modifies a`pos, a`numBits, a`codeBuffer, a`p, a`fetched, a`zeros
    ensures a.Reader() && a.p == old(a.p) + extra && v == base + Window(a.data, old(a.p), extra)
    ensures a.Now() == Take(old(a.Now()), extra)
  {
    v := base;
    if extra != 0 {
      var more := a.Receive(extra);
      v := v + more;
    }
  }

  method ReadMatch(a: Zbuf, ghost c: Codes, i: nat) returns (r: Read)
    requires i < 29 && a.Valid() && a.zDistance.Built() && c.dist == a.zDistance.lens
    modifies a`pos, a`numBits, a`codeBuffer, a`hitZeofOnce, a`p, a`fetched, a`zeros
    ensures a.Valid() && Agrees(r, MatchAt(a.data, c, old(a.p), a.zout, i), MatchMeter(a.data, c, old(a.Now()), i), a.Now(), a.Starved())
    ensures r.Failed? || (r.Token? && r.t.Match? && r.t.len >= 3 && 1 <= r.t.dist <= a.zout)
  {
    hide Spelled;
    hide Huffman.Built;
    hide LengthBase;
    hide LengthExtra;
    hide DistBase;
    hide DistExtra;
    hide LengthRow;
    hide DistRow;
    hide Window;
    hide Topped;
    hide Take;
    ghost var q := a.p + LengthExtra(i);
    LengthTable(i);
    var row := LengthRow(i);
    var len := ReadExtra(a, row.0, row.1);
    ghost var m := a.Now();
    var y := a.Decode(a.zDistance);
    SymbolAtAgrees(a.data, q, c.dist, y, a.Starved() && Topped(|a.data|, m).Short?);
    if y < 0 || y >= 30 {
      return Failed;
    }
    DistTable(y);
    var drow := DistRow(y);
    var dist := ReadExtra(a, drow.0, drow.1);
    if a.zout < dist {
      return Failed;
    }
    return Token(Match(len, dist));
  }

  lemma SymbolAtAgrees(data: seq<byte>, p: nat, lens: seq<nat>, r: int, starved: bool)
    requires r >= 0 ==> Spelled(data, p, lens, r)
    requires r < 0 ==> starved || forall s: nat :: !Spelled(data, p, lens, s)
    ensures r >= 0 ==> SymbolAt(data, p, lens) == r
    ensures r < 0 ==> starved || SymbolAt(data, p, lens) == -1
  {
    if r >= 0 {
      SymbolAtIs(data, p, lens, r);
    }
  }

  method PutToken(a: Zbuf, ghost c: Codes, t: DeflateFormat.Token) returns (st: Status)
    requires a.Valid() && Ready(a, c) && (t.Match? ==> 1 <= t.dist <= a.zout)
    modifies a`buf, a`zout, a.buf
    ensures a.Valid() && Ready(a, c) && st != Corrupt && (a.buf == old(a.buf) || (a.expandable && fresh(a.buf)))
    ensures a.Room() == old(a.Room()) && (st.Ok? <==> old(a.zout) + Length(t) <= a.Room())
    ensures st.Ok? ==> a.Out() == Emit(old(a.Out()), t) && a.zout == old(a.zout) + Length(t)
    ensures !st.Ok? ==> a.buf == old(a.buf) && a.zout == old(a.zout)
  {
    hide Huffman.Built;
    if t.Literal? {
      st := a.PutLiteral(t.b);
    } else {
      CopyLength(a.Out(), t.dist, t.len);
      st := a.PutMatch(t.len, t.dist);
    }
  }

  /** Decodes one compressed block. On success the tokens `ts` are what the bits spell and the
      output is their expansion. When tokens are spelled, the input is rejected exactly if
      they run short, and room runs out only if they do not fit. */
  method ParseHuffmanBlock(a: Zbuf, ghost c: Codes) returns (st: Status, ghost ts: seq<DeflateFormat.Token>)
    requires a.Valid() && Ready(a, c)
    modifies a`pos, a`numBits, a`codeBuffer, a`hitZeofOnce, a`p, a`fetched, a`zeros, a`buf, a`zout, a.buf
    ensures a.Valid() && (a.buf == old(a.buf) || fresh(a.buf)) && a.Room() == old(a.Room())
    ensures st.Ok? ==> TokensEnd(a.data, c, old(a.p), old(a.zout), ts) == a.p && !a.Starved()
    ensures st.Ok? ==> a.Out() == Expand(old(a.Out()), ts) && a.zout == old(a.zout) + Size(ts)
    ensures st.Ok? ==> TokensMeter(a.data, c, old(a.Now()), ts) == Supplied(a.Now())
    ensures st.Corrupt? ==> forall cap: nat, end: int, v: Supply ::
              TokensFit(a.data, c, old(a.Now()), old(a.zout), cap, end, v) ==> a.Starved() && a.p <= end && v.Short?
    ensures st.NoRoom? ==> forall end: int, v: Supply :: !TokensFit(a.data, c, old(a.Now()), old(a.zout), a.Room(), end, v)
    ensures !a.expandable ==> a.buf == old(a.buf)
  {
    hide Zbuf.Reader;
    hide StepAt;
    hide StepMeter;
    hide TokensFit;
    hide Ready;
    ts := [];
    ghost var m0, p0, n0 := a.Now(), a.p, a.zout;
    while true
      invariant a.Valid() && (a.buf == old(a.buf) || fresh(a.buf)) && (!a.expandable ==> a.buf == old(a.buf))
      invariant Ready(a, c) && a.Room() == old(a.Room())
      invariant TokensSpelled(a.data, c, p0, n0, ts, a.p) && a.zout == n0 + Size(ts)
      invariant a.Out() == Expand(old(a.Out()), ts)
      invariant TokensPassed(a.data, c, m0, ts, a.Now())
      invariant forall cap: nat, end: int, v: Supply ::
                  TokensFit(a.data, c, m0, n0, cap, end, v) ==> TokensFit(a.data, c, a.Now(), a.zout, cap, end, v)
      decreases UINT_MAX - a.zout
    {
      ghost var m1, n1 := a.Now(), a.zout;
      forall cap: nat, end: int, v: Supply | TokensFit(a.data, c, m1, n1, cap, end, v)
        ensures FitStep(a.data, c, m1, n1, cap, end, v)
      {
        TokensFitStep(a.data, c, m1, n1, cap, end, v);
      }
      TokensSpelledAppend(a.data, c, p0, n0, ts, m1.p, n1);
      TokensPassedAppend(a.data, c, m0, ts, m1);
      var r := ReadToken(a, c);
      match r {
        case Failed =>
          return Corrupt, ts;
        case EndSymbol =>
          return Ok, ts;
        case Token(t) =>
          ExpandAppend(old(a.Out()), ts, t);
          SizeAppend(ts, t);
          st := PutToken(a, c, t);
          if !st.Ok? {
            return;
          }
          ts := ts + [t];
      }
    }
  }

  /** What the fitting of a block's tokens says of the first step. */
  ghost predicate FitStep(data: seq<byte>, c: Codes, m: Meter, n: nat, cap: nat, end: int, v: Supply) {
    var s, next := StepAt(data, c, m.p, n), StepMeter(data, c, m);
    && !s.Bad? && s.q <= end
    && (next.Short? ==> v.Short?)
    && (s.Next? ==> n + Length(s.t) <= cap)
    && (s.Next? && next.Supplied? && next.m.p == s.q ==> TokensFit(data, c, next.m, n + Length(s.t), cap, end, v))
  }

  // ----- dynamic codes -----

  /** Reads the code lengths of the code length alphabet. */
  method ReadLengthLengths(a: Zbuf, hclen: nat) returns (sizes: seq<nat>)
    requires a.Reader() && hclen <= 19
    modifies a`pos, a`numBits, a`codeBuffer, a`p, a`fetched, a`zeros
    ensures a.Reader() && a.p == old(a.p) + 3 * hclen
    ensures sizes == LengthLengths(a.data, old(a.p), hclen) && Lengths(sizes)
    ensures a.Now() == TakeAll(old(a.Now()), 3, hclen)
  {
    hide Zbuf.Reader;
    hide Window;
    hide Take;
    sizes := seq(19, i => 0);
    for i := 0 to hclen
      invariant a.Reader() && a.p == old(a.p) + 3 * i
      invariant sizes == LengthLengths(a.data, old(a.p), i) && Lengths(sizes)
      invariant a.Now() == TakeAll(old(a.Now()), 3, i)
    {
      WindowBound(a.data, a.p, 3);
      assert Pow2(3) == 8;
      var s := a.Receive(3);
      sizes := sizes[ORDER[i] := s];
    }
  }

  /** What one step of the length list adds: `fill` repeated `count` times. */
  datatype LengthStep = Stop | Run(fill: nat, count: nat)

  /** The list of lengths from `m` on, once a step has been taken, is the list from `next` on. */
  ghost predicate LengthsAgree(r: LengthStep, data: seq<byte>, cl: seq<nat>, m: Meter, total: nat, acc: seq<nat>, next: Meter, starved: bool)
    requires |cl| == 19 && |acc| < total
  {
    match r
    case Stop =>
      var l := ReadLengths(data, cl, m.p, total, acc);
      l.NoLengths? || (LengthsMeter(data, cl, m, total, |acc|).Short? && starved && l.q >= next.p)
    case Run(fill, count) =>
      && fill <= MAX_LENGTH && 1 <= count <= total - |acc|
      && ReadLengths(data, cl, m.p, total, acc) == ReadLengths(data, cl, next.p, total, acc + seq(count, i => fill))
      && LengthsMeter(data, cl, m, total, |acc|) == LengthsMeter(data, cl, next, total, |acc| + count)
  }

  method ReadRepeat(a: Zbuf, c: int) returns (count: nat)
    requires a.Reader()
    modifies a`pos, a`numBits, a`codeBuffer, a`p, a`fetched, a`zeros
    ensures a.Reader() && count == Repeat(a.data, old(a.p), c) >= 3 && a.p == old(a.p) + RepeatBits(c)
    ensures a.Now() == Take(old(a.Now()), RepeatBits(c))
  {
    if c == 16 {
      count := a.Receive(2);
      count := count + 3;
    } else if c == 17 {
      count := a.Receive(3);
      count := count + 3;
    } else {
      count := a.Receive(7);
      count := count + 11;
    }
  }

  method ReadLengthStep(a: Zbuf, z: Huffman, total: nat, acc: seq<nat>) returns (r: LengthStep)
    requires a.Reader() && z.Built() && |z.lens| == 19 && |acc| < total && Lengths(acc)
    modifies a`pos, a`numBits, a`codeBuffer, a`hitZeofOnce, a`p, a`fetched, a`zeros
    ensures a.Reader() && LengthsAgree(r, a.data, z.lens, old(a.Now()), total, acc, a.Now(), a.Starved())
  {
    hide Spelled;
    hide Huffman.Built;
    hide Repeat;
    hide RepeatBits;
    hide SymbolAt;
    hide Topped;
    hide Take;
    hide Window;
    hide ReadLengths;
    hide LengthsMeter;
    hide Zbuf.Reader;
    ghost var cl, m := z.lens, a.Now();
    ReadLengthsForward(a.data, cl, a.p, total, acc);
    var c := a.Decode(z);
    ghost var next := a.Now();
    SymbolAtAgrees(a.data, old(a.p), cl, c, a.Starved() && Topped(|a.data|, old(a.Now())).Short?);
    if c < 0 || c >= 19 {
      NoLength(a.data, cl, m, total, acc);
      return Stop;
    }
    if c < 16 {
      OneLength(a.data, cl, m, total, acc, next, c);
      return Run(c, 1);
    }
    var count := ReadRepeat(a, c);
    MoreLengths(a.data, cl, m, total, acc, next, c);
    var fill := 0;
    if c == 16 {
      if |acc| == 0 {
        return Stop;
      }
      fill := acc[|acc| - 1];
    }
    if total - |acc| < count {
      return Stop;
    }
    return Run(fill, count);
  }

  lemma NoLength(data: seq<byte>, cl: seq<nat>, m: Meter, total: nat, acc: seq<nat>)
    requires |cl| == 19 && |acc| < total
    ensures SymbolAt(data, m.p, cl) < 0 ==> ReadLengths(data, cl, m.p, total, acc).NoLengths?
    ensures Topped(|data|, m).Short? ==> LengthsMeter(data, cl, m, total, |acc|).Short?
  {
  }

  lemma OneLength(data: seq<byte>, cl: seq<nat>, m: Meter, total: nat, acc: seq<nat>, next: Meter, z: nat)
    requires |cl| == 19 && |acc| < total && z < 16 && SymbolAt(data, m.p, cl) == z
    requires Symbol(|data|, m, cl[z]) == Supplied(next) && next.p == m.p + cl[z]
    ensures ReadLengths(data, cl, m.p, total, acc) == ReadLengths(data, cl, next.p, total, acc + seq(1, i => z))
    ensures LengthsMeter(data, cl, m, total, |acc|) == LengthsMeter(data, cl, next, total, |acc| + 1)
  {
    hide SymbolAt;
    hide Symbol;
    assert seq(1, i => z) == [z];
  }

  lemma MoreLengths(data: seq<byte>, cl: seq<nat>, m: Meter, total: nat, acc: seq<nat>, next: Meter, z: nat)
    requires |cl| == 19 && |acc| < total && 16 <= z < 19 && SymbolAt(data, m.p, cl) == z
    requires Symbol(|data|, m, cl[z]) == Supplied(next) && next.p == m.p + cl[z]
    ensures var c := Repeat(data, next.p, z);
            var l := ReadLengths(data, cl, m.p, total, acc);
            if (z == 16 && acc == []) || c > total - |acc| then l.NoLengths?
            else
              var fill := if z == 16 then acc[|acc| - 1] else 0;
              && l == ReadLengths(data, cl, next.p + RepeatBits(z), total, acc + seq(c, i => fill))
              && LengthsMeter(data, cl, m, total, |acc|) == LengthsMeter(data, cl, Take(next, RepeatBits(z)), total, |acc| + c)
  {
    hide SymbolAt;
    hide Symbol;
    hide Window;
    hide Take;
  }

  method ReadLengthList(a: Zbuf, z: Huffman, total: nat) returns (st: Status, lens: seq<nat>)
    requires a.Reader() && z.Built() && |z.lens| == 19
    modifies a`pos, a`numBits, a`codeBuffer, a`hitZeofOnce, a`p, a`fetched, a`zeros
    ensures a.Reader() && st != NoRoom
    ensures var l := ReadLengths(a.data, z.lens, old(a.p), total, []);
            var v := LengthsMeter(a.data, z.lens, old(a.Now()), total, 0);
            if st.Ok? then l == SomeLengths(lens, a.p) && Lengths(lens) && v == Supplied(a.Now())
            else l.NoLengths? || (v.Short? && a.Starved() && l.q >= a.p)
  {
    hide ReadLengths;
    hide LengthsMeter;
    lens := [];
    while |lens| < total
      invariant a.Reader() && z.Built() && |lens| <= total && Lengths(lens)
      invariant ReadLengths(a.data, z.lens, a.p, total, lens) == ReadLengths(a.data, z.lens, old(a.p), total, [])
      invariant LengthsMeter(a.data, z.lens, a.Now(), total, |lens|) == LengthsMeter(a.data, z.lens, old(a.Now()), total, 0)
      decreases total - |lens|
    {
      var r := ReadLengthStep(a, z, total, lens);
      if r.Stop? {
        return Corrupt, lens;
      }
      lens := lens + seq(r.count, i => r.fill);
    }
    ReadLengthsDone(a.data, z.lens, a.Now(), total, lens);
    return Ok, lens;
  }

  lemma ReadLengthsDone(data: seq<byte>, cl: seq<nat>, m: Meter, total: nat, acc: seq<nat>)
    requires |cl| == 19 && |acc| == total
    ensures ReadLengths(data, cl, m.p, total, acc) == SomeLengths(acc, m.p)
    ensures LengthsMeter(data, cl, m, total, total) == Supplied(m)
  {
  }

  /** Reads a dynamic block's header and builds its two codes. */
  method ComputeHuffmanCodes(a: Zbuf) returns (st: Status)
    requires a.Valid()
    modifies a`pos, a`numBits, a`codeBuffer, a`hitZeofOnce, a`p, a`fetched, a`zeros
    modifies a.zLength, a.zLength.Tables(), a.zDistance, a.zDistance.Tables()
    ensures a.Valid() && st != NoRoom
    ensures HeaderAgrees(st, a, DynamicHeader(a.data, old(a.p)), HeaderMeter(a.data, old(a.Now())))
  {
    hide Zbuf.Reader;
    hide Huffman.Built;
    hide ListedCodes;
    hide HeaderAgrees;
    hide DynamicHeader;
    hide HeaderMeter;
    hide LengthsMeter;
    var hlit, hdist, sizes := ReadCounts(a);
    st := BuildListedCodes(a, sizes, hlit, hdist);
  }

  /** The counts at the head of a dynamic block, and the code length code's lengths. */
  method ReadCounts(a: Zbuf) returns (hlit: nat, hdist: nat, sizes: seq<nat>)
    requires a.Reader()
    modifies a`pos, a`numBits, a`codeBuffer, a`p, a`fetched, a`zeros
    ensures a.Reader() && hlit <= MAX_SYMBOLS && hdist <= 32 && |sizes| == 19 && Lengths(sizes)
    ensures ListedCodes(a.data, sizes, a.p, hlit, hdist) == DynamicHeader(a.data, old(a.p))
    ensures LengthsMeter(a.data, sizes, a.Now(), hlit + hdist, 0) == HeaderMeter(a.data, old(a.Now()))
  {
    hide Zbuf.Reader;
    hide ListedCodes;
    hide LengthLengths;
    hide Window;
    hide Take;
    hide TakeAll;
    hide LengthsMeter;
    ghost var p := a.p;
    CountBounds(a.data, p);
    hlit := a.Receive(5);
    hdist := a.Receive(5);
    assert a.p == p + 10;
    var hclen := a.Receive(4);
    assert a.p == p + 14;
    sizes := ReadLengthLengths(a, hclen + 4);
    hlit, hdist := hlit + 257, hdist + 1;
  }

  method BuildListedCodes(a: Zbuf, sizes: seq<nat>, hlit: nat, hdist: nat) returns (st: Status)
    requires a.Valid() && |sizes| == 19 && Lengths(sizes) && hlit <= MAX_SYMBOLS && hdist <= MAX_SYMBOLS
    modifies a`pos, a`numBits, a`codeBuffer, a`hitZeofOnce, a`p, a`fetched, a`zeros
    modifies a.zLength, a.zLength.Tables(), a.zDistance, a.zDistance.Tables()
    ensures a.Valid() && st != NoRoom
    ensures HeaderAgrees(st, a, ListedCodes(a.data, sizes, old(a.p), hlit, hdist),
                         LengthsMeter(a.data, sizes, old(a.Now()), hlit + hdist, 0))
  {
    hide Zbuf.Reader;
    hide Huffman.Built;
    hide ReadLengths;
    hide LengthsMeter;
    hide Kraft;
    var lens;
    ReadLengthsForward(a.data, sizes, a.p, hlit + hdist, []);
    st, lens := ReadCoded(a, sizes, hlit + hdist);
    if !st.Ok? {
      return;
    }
    assert Lengths(lens[..hlit]) && Lengths(lens[hlit..]);
    st := BuildCodes(a, lens[..hlit], lens[hlit..]);
  }

  /** The header read is `h`, with both codes built; or there is none, or the reader was starved in it. */
  ghost predicate HeaderAgrees(st: Status, a: Zbuf, h: Header, v: Supply)
    reads a, a.zLength, a.zLength.Tables(), a.zDistance, a.zDistance.Tables()
  {
    if st.Ok? then
      && a.zLength.Built() && a.zDistance.Built()
      && h == Header(Codes(a.zLength.lens, a.zDistance.lens), a.p) && v == Supplied(a.Now())
    else h.NoHeader? || (v.Short? && a.Starved() && h.q >= a.p)
  }

  /** Builds the code length code and reads the run-length coded list with it. */
  method ReadCoded(a: Zbuf, sizes: seq<nat>, total: nat) returns (st: Status, lens: seq<nat>)
    requires a.Reader() && |sizes| == 19 && Lengths(sizes)
    modifies a`pos, a`numBits, a`codeBuffer, a`hitZeofOnce, a`p, a`fetched, a`zeros
    ensures a.Reader() && st != NoRoom
    ensures st.Ok? ==> Kraft(sizes) && ReadLengths(a.data, sizes, old(a.p), total, []) == SomeLengths(lens, a.p) && Lengths(lens)
    ensures st.Ok? ==> LengthsMeter(a.data, sizes, old(a.Now()), total, 0) == Supplied(a.Now())
    ensures !st.Ok? && Kraft(sizes) ==>
              var l := ReadLengths(a.data, sizes, old(a.p), total, []);
              l.NoLengths? || (LengthsMeter(a.data, sizes, old(a.Now()), total, 0).Short? && a.Starved() && l.q >= a.p)
  {
    hide Zbuf.Reader;
    hide ReadLengths;
    hide LengthsMeter;
    hide Kraft;
    hide Huffman.Built;
    var z := new Huffman();
    var ok := z.Build(sizes);
    if !ok {
      return Corrupt, [];
    }
    st, lens := ReadLengthList(a, z, total);
  }

  method BuildCodes(a: Zbuf, lit: seq<nat>, dist: seq<nat>) returns (st: Status)
    requires a.Valid() && Lengths(lit) && Lengths(dist) && |lit| <= MAX_SYMBOLS && |dist| <= MAX_SYMBOLS
    modifies a.zLength, a.zLength.Tables(), a.zDistance, a.zDistance.Tables()
    ensures a.Valid() && st == if Kraft(lit) && Kraft(dist) then Ok else Corrupt
    ensures st.Ok? ==> a.zLength.Built() && a.zDistance.Built() && a.zLength.lens == lit && a.zDistance.lens == dist
  {
    hide Kraft;
    hide Huffman.Built;
    var ok := a.zLength.Build(lit);
    if !ok {
      return Corrupt;
    }
    ok := a.zDistance.Build(dist);
    if !ok {
      return Corrupt;
    }
    return Ok;
  }

  // ----- stored blocks -----

  /** Collects the four length bytes of a stored block, first from the bit buffer, then from the
      input. The check for a negative bit count never fires, and four bytes always suffice. */
  method ReadStoredHeader(a: Zbuf) returns (header: array<nat>)
    requires a.Reader()
    modifies a`pos, a`numBits, a`codeBuffer, a`p, a`fetched, a`zeros
    ensures a.Reader() && a.numBits == 0 && a.p == ByteBoundary(old(a.p)) + 32
    ensures fresh(header) && header.Length == 4
    ensures forall i :: 0 <= i < 4 ==> header[i] == Window(a.data, ByteBoundary(old(a.p)) + 8 * i, 8)
  {
    hide Window;
    hide Low;
    hide ByteBoundary;
    SkipToByte(a);
    header := new nat[4](_ => 0);
    ghost var p := a.p;
    var k := DrainBuffer(a, header);
    if a.numBits < 0 {
      assert false;
    }
    while k < 4
      invariant a.Reader() && a.numBits == 0 && k <= 4 && a.p == p + 8 * k
      invariant forall i :: 0 <= i < k ==> header[i] == Window(a.data, p + 8 * i, 8)
    {
      header[k] := a.GetAligned();
      k := k + 1;
    }
  }

  /** Moves the whole bytes in the bit buffer to the front of `header`. */
  method DrainBuffer(a: Zbuf, header: array<nat>) returns (k: nat)
    requires a.Reader() && a.numBits == 8 * (a.numBits / 8) && header.Length == 4
    modifies a`numBits, a`codeBuffer, a`p, header
    ensures a.Reader() && a.numBits == 0 && k <= 4 && a.p == old(a.p) + 8 * k
    ensures forall i :: 0 <= i < k ==> header[i] == Window(a.data, old(a.p) + 8 * i, 8)
  {
    hide Window;
    hide Low;
    ghost var p := a.p;
    k := 0;
    ghost var left := a.numBits / 8;
    while a.numBits > 0
      invariant a.Reader() && a.numBits == 8 * left && a.p == p + 8 * k && k + left <= 4
      invariant forall i :: 0 <= i < k ==> header[i] == Window(a.data, p + 8 * i, 8)
    {
      WindowSplit(a.data, a.p, 8, a.numBits);
      header[k] := Low(a.codeBuffer, 8);
      k, left := k + 1, left - 1;
      a.Consume(8);
    }
  }

  method SkipToByte(a: Zbuf)
    requires a.Reader()
    modifies a`pos, a`numBits, a`codeBuffer, a`p, a`fetched, a`zeros
    ensures a.Reader() && a.p == ByteBoundary(old(a.p)) && a.numBits == 8 * (a.numBits / 8)
  {
    hide Window;
    var r := a.numBits % 8;
    Boundary(a.p, a.numBits, a.fetched);
    if r != 0 {
      var _ := a.Receive(r);
    }
  }

  /** Discarding the odd bits of the buffer moves the cursor to the next byte boundary. */
  lemma Boundary(p: nat, n: nat, fetched: nat)
    requires p + n == 8 * fetched
    ensures p + n % 8 == ByteBoundary(p)
  {
  }

  lemma BoundaryAhead(p: nat)
    ensures ByteBoundary(p) >= p
  {
  }

  lemma TwoBytes(data: seq<byte>, p: nat)
    ensures Window(data, p, 16) == Window(data, p, 8) + 256 * Window(data, p + 8, 8) < 65536
  {
    WindowConcat(data, p, 8, 8);
    WindowBound(data, p, 16);
    Pow2Values();
    Shl8(Window(data, p + 8, 8));
  }

  /** Input bytes at a byte boundary spell a stored block's contents. */
  lemma StoredContents(data: seq<byte>, p: nat, pos: nat, fetched: nat, len: nat)
    requires pos + len <= |data| && pos <= fetched && (pos < |data| ==> fetched == pos)
    requires ByteBoundary(p) + 32 == 8 * fetched
    requires Window(data, ByteBoundary(p), 16) == len && Window(data, ByteBoundary(p) + 16, 16) == 0xffff - len
    ensures StoredEnd(data, p, data[pos..pos + len]) == 8 * fetched + 8 * len
  {
    hide ByteBoundary;
    hide Window;
    var a, bytes := ByteBoundary(p), data[pos..pos + len];
    forall i | 0 <= i < len ensures bytes[i] == Window(data, a + 32 + 8 * i, 8) {
      WindowByte(data, pos + i);
    }
  }

  /** If length and complement agree and the contents are all there, so are the length bytes. */
  lemma StoredInside(data: seq<byte>, start: nat, pos: nat, fetched: nat, len: nat)
    requires pos + len <= |data| && pos <= fetched && (pos < |data| ==> fetched == pos)
    requires start + 32 == 8 * fetched
    requires Window(data, start, 16) == len && Window(data, start + 16, 16) == 0xffff - len
    ensures fetched + len <= |data|
  {
    hide Window;
    if pos == |data| && fetched > pos {
      TwoBytes(data, start + 16);
      WindowBound(data, start + 16, 8);
      Pow2Values();
      WindowPastEnd(data, start + 24, 8);
      assert false;
    }
  }

  /** The length of a stored block, if its complement agrees. */
  method ReadStoredLength(a: Zbuf) returns (ok: bool, len: nat)
    requires a.Reader()
    modifies a`pos, a`numBits, a`codeBuffer, a`p, a`fetched, a`zeros
    ensures a.Reader() && a.numBits == 0 && a.p == ByteBoundary(old(a.p)) + 32
    ensures len == Window(a.data, ByteBoundary(old(a.p)), 16) <= 0xffff
    ensures ok <==> Window(a.data, ByteBoundary(old(a.p)) + 16, 16) == 0xffff - len
  {
    hide Window;
    hide ByteBoundary;
    hide Xor;
    ghost var start := ByteBoundary(a.p);
    var header := ReadStoredHeader(a);
    len := header[1] * 256 + header[0];
    var nlen := header[3] * 256 + header[2];
    TwoBytes(a.data, start);
    TwoBytes(a.data, start + 16);
    Complement16(len);
    ok := nlen == Xor(len, 0xffff);
  }

  lemma Complement16(len: nat)
    requires len <= 0xffff
    ensures Xor(len, 0xffff) == 0xffff - len
  {
    Pow2Values();
    XorOnesIsComplement(len, 16);
  }

  method ParseUncompressedBlock(a: Zbuf) returns (st: Status, ghost bytes: seq<byte>)
    requires a.Valid()
    modifies a`pos, a`numBits, a`codeBuffer, a`p, a`fetched, a`zeros, a`buf, a`zout, a.buf
    ensures a.Valid() && (a.buf == old(a.buf) || (a.expandable && fresh(a.buf))) && a.Room() == old(a.Room())
    ensures st.Ok? ==> StoredEnd(a.data, old(a.p), bytes) == a.p && a.Out() == old(a.Out()) + bytes
    ensures st.Ok? ==> StoredMeter(|a.data|, old(a.Now()), |bytes|) == Supplied(a.Now()) && a.p <= 8 * |a.data|
    ensures st.Corrupt? ==>
              forall b: seq<byte> :: var q := StoredEnd(a.data, old(a.p), b); q < 0 || q > 8 * |a.data|
    ensures st.NoRoom? ==>
              forall b: seq<byte> :: StoredEnd(a.data, old(a.p), b) >= 0 ==> old(a.zout) + |b| > a.Room()
  {
    hide Window;
    hide ByteBoundary;
    hide StoredEnd;
    ghost var p, m, start := a.p, a.Now(), ByteBoundary(a.p);
    bytes := [];
    var ok, len := ReadStoredLength(a);
    forall b: seq<byte> | StoredEnd(a.data, p, b) >= 0
      ensures ok && |b| == len && StoredEnd(a.data, p, b) == start + 32 + 8 * len
    {
      StoredShape(a.data, p, b);
    }
    if !ok {
      return Corrupt, [];
    }
    if a.pos + len > |a.data| {
      return Corrupt, [];
    }
    StoredInside(a.data, start, a.pos, a.fetched, len);
    StoredContents(a.data, p, a.pos, a.fetched, len);
    st, bytes := PutStored(a, len);
  }

  lemma StoredShape(data: seq<byte>, p: nat, bytes: seq<byte>)
    requires StoredEnd(data, p, bytes) >= 0
    ensures var a := ByteBoundary(p);
            && Window(data, a, 16) == |bytes| && Window(data, a + 16, 16) == 0xffff - |bytes|
            && StoredEnd(data, p, bytes) == a + 32 + 8 * |bytes|
  {
    hide Window;
    hide ByteBoundary;
  }

  /** Appends the next `len` input bytes. */
  method PutStored(a: Zbuf, len: nat) returns (st: Status, ghost bytes: seq<byte>)
    requires a.Valid() && a.numBits == 0 && a.pos + len <= |a.data|
    modifies a`pos, a`p, a`fetched, a`buf, a`zout, a.buf
    ensures a.Valid() && (a.buf == old(a.buf) || (a.expandable && fresh(a.buf))) && a.Room() == old(a.Room())
    ensures st != Corrupt && (st.Ok? <==> old(a.zout) + len <= a.Room())
    ensures st.Ok? ==> bytes == a.data[old(a.pos)..old(a.pos) + len] && a.Out() == old(a.Out()) + bytes
    ensures st.Ok? ==> a.p == old(a.p) + 8 * len && a.fetched == old(a.fetched) + len && a.numBits == 0
  {
    hide Window;
    bytes := [];
    if a.zout + len > a.buf.Length {
      st := a.ZExpand(len);
      if !st.Ok? {
        return;
      }
    }
    bytes := a.data[a.pos..a.pos + len];
    a.CopyInput(len);
    return Ok, bytes;
  }

  // ----- blocks -----

  /** `n` symbols of one length. */
  function Same(l: nat, n: nat): (r: seq<nat>)
    ensures |r| == n && forall i :: 0 <= i < n ==> r[i] == l
  {
    seq(n, i => l)
  }

  lemma KraftSumSnoc(lens: seq<nat>, l: nat)
    requires Lengths(lens) && 1 <= l <= MAX_LENGTH
    ensures Lengths(lens + [l]) && KraftSum(lens + [l]) == KraftSum(lens) + Pow2(MAX_LENGTH - l)
  {
    hide Pow2;
    assert (lens + [l])[..|lens|] == lens;
  }

  lemma {:induction false} KraftSumRun(lens: seq<nat>, l: nat, n: nat)
    requires Lengths(lens) && 1 <= l <= MAX_LENGTH
    ensures Lengths(lens + Same(l, n))
    ensures KraftSum(lens + Same(l, n)) == KraftSum(lens) + Shl(n, MAX_LENGTH - l)
    decreases n
  {
    hide KraftSum;
    if n == 0 {
      assert lens + Same(l, n) == lens;
      ShlAdd(0, 0, MAX_LENGTH - l);
    } else {
      KraftSumRun(lens, l, n - 1);
      KraftSumSnoc(lens + Same(l, n - 1), l);
      assert lens + Same(l, n) == lens + Same(l, n - 1) + [l];
      ShlAdd(n - 1, 1, MAX_LENGTH - l);
      ShlOne(MAX_LENGTH - l);
    }
  }

  /** The fixed codes use up the code space exactly. */
  lemma FixedCodesComplete()
    ensures Lengths(FixedLit()) && KraftSum(FixedLit()) == Pow2(MAX_LENGTH)
    ensures Lengths(FixedDist()) && KraftSum(FixedDist()) == Pow2(MAX_LENGTH)
  {
    FixedRuns();
    hide KraftSum;
    hide Lengths;
    hide Same;
    hide FixedLit;
    hide FixedDist;
    var a := [] + Same(8, 144);
    var b := a + Same(9, 112);
    var c := b + Same(7, 24);
    EmptySum();
    KraftSumRun([], 8, 144);
    KraftSumRun(a, 9, 112);
    KraftSumRun(b, 7, 24);
    KraftSumRun(c, 8, 8);
    KraftSumRun([], 5, 32);
    hide Shl;
    hide Pow2;
    FixedShares();
  }

  lemma FixedRuns()
    ensures FixedLit() == [] + Same(8, 144) + Same(9, 112) + Same(7, 24) + Same(8, 8)
    ensures FixedDist() == [] + Same(5, 32)
  {
  }

  lemma EmptySum()
    ensures Lengths([]) && KraftSum([]) == 0
  {
  }

  /** The shares of the code space that the fixed lengths take, in units of `2^-15`. */
  lemma FixedShares()
    ensures Shl(144, 7) + Shl(112, 6) + Shl(24, 8) + Shl(8, 7) == Pow2(15) && Shl(32, 10) == Pow2(15)
  {
    forall x: nat ensures Shl(x, 6) == 64 * x && Shl(x, 7) == 128 * x && Shl(x, 8) == 256 * x && Shl(x, 10) == 1024 * x {
      ShlLow(x);
    }
    Pow2Values();
  }

  lemma ShlLow(x: nat)
    ensures Shl(x, 6) == 64 * x && Shl(x, 7) == 128 * x && Shl(x, 8) == 256 * x && Shl(x, 10) == 1024 * x
  {
    assert Shl(x, 1) == 2 * x && Shl(x, 2) == 4 * x && Shl(x, 3) == 8 * x && Shl(x, 4) == 16 * x;
    assert Shl(x, 5) == 32 * x && Shl(x, 6) == 64 * x && Shl(x, 7) == 128 * x && Shl(x, 8) == 256 * x;
    assert Shl(x, 9) == 512 * x;
  }

  /** A block's bits include a one, so only finitely many blocks precede the final one. */
  lemma BlockUsesOnes(data: seq<byte>, p: nat, n: nat, b: Block)
    requires BlockEnd(data, p, n, b) >= 0
    ensures OnesFrom(data, BlockEnd(data, p, n, b)) < OnesFrom(data, p)
  {
    hide TokensEnd;
    hide DynamicHeader;
    hide Window;
    var q := BlockEnd(data, p, n, b);
    BlockForward(data, p, n, b);
    OnesConsumed(data, p, 1);
    OnesConsumed(data, p + 1, 2);
    if b.Stored? {
      var a := ByteBoundary(p + 3);
      OnesConsumed(data, p + 3, a - (p + 3));
      OnesConsumed(data, a, 16);
      OnesConsumed(data, a + 16, 16);
      OnesConsumed(data, a + 32, q - (a + 32));
    } else {
      OnesConsumed(data, p + 3, q - (p + 3));
    }
  }

  /** The codes of a compressed block whose contents start at `m`, and where its tokens do. */
  ghost predicate CompressedAt(data: seq<byte>, m: Meter, kind: nat, c: Codes, next: Meter)
    requires m.p >= 3
  {
    && kind == Window(data, m.p - 2, 2)
    && if kind == 1 then c == FixedCodes() && next == m
       else kind == 2 && DynamicHeader(data, m.p) == Header(c, next.p) && HeaderMeter(data, m) == Supplied(next)
  }

  function Compressed(kind: nat, ts: seq<DeflateFormat.Token>): Block {
    if kind == 1 then Fixed(ts) else Dynamic(ts)
  }

  lemma CompressedBlock(data: seq<byte>, m: Meter, n: nat, kind: nat, c: Codes, next: Meter)
    requires m.p >= 3 && CompressedAt(data, m, kind, c, next)
    ensures forall ts :: BlockEnd(data, m.p - 3, n, Compressed(kind, ts)) == TokensEnd(data, c, next.p, n, ts)
    ensures forall ts :: BlockMeter(data, m, Compressed(kind, ts)) == TokensMeter(data, c, next, ts)
    ensures forall cap: nat, end: int, v: Supply ::
              BlockFits(data, m, n, cap, end, v) ==> TokensFit(data, c, next, n, cap, end, v)
  {
    hide TokensEnd;
    hide TokensMeter;
    hide DynamicHeader;
    hide HeaderMeter;
    hide StoredEnd;
    forall cap: nat, end: int, v: Supply | BlockFits(data, m, n, cap, end, v)
      ensures TokensFit(data, c, next, n, cap, end, v)
    {
      var b :| 0 <= BlockEnd(data, m.p - 3, n, b) <= end && n + BlockSize(b) <= cap && BlockMeter(data, m, b) == v;
      assert b == Compressed(kind, b.tokens);
    }
  }

  /** Without a header there is no dynamic block; with one, none ends before it does. */
  lemma NoSuchBlock(data: seq<byte>, m: Meter, n: nat, cap: nat, end: int, v: Supply)
    requires m.p >= 3
    ensures Window(data, m.p - 2, 2) == 2 && BlockFits(data, m, n, cap, end, v) ==>
              var h := DynamicHeader(data, m.p); h.Header? && h.q <= end && (HeaderMeter(data, m).Short? ==> v.Short?)
    ensures Window(data, m.p - 2, 2) >= 3 ==> !BlockFits(data, m, n, cap, end, v)
  {
    hide TokensEnd;
    hide TokensMeter;
    hide DynamicHeader;
    hide HeaderMeter;
    hide StoredEnd;
    if BlockFits(data, m, n, cap, end, v) {
      var b :| 0 <= BlockEnd(data, m.p - 3, n, b) <= end && n + BlockSize(b) <= cap && BlockMeter(data, m, b) == v;
      var h := DynamicHeader(data, m.p);
      if b.Dynamic? && h.Header? {
        TokensForward(data, h.codes, h.q, n, b.tokens);
      }
    }
  }

  lemma StoredBlock(data: seq<byte>, m: Meter, n: nat, cap: nat, end: int, v: Supply)
    requires m.p >= 3 && Window(data, m.p - 2, 2) == 0 && BlockFits(data, m, n, cap, end, v)
    ensures exists bytes :: && 0 <= StoredEnd(data, m.p, bytes) <= end && n + |bytes| <= cap
                            && v == StoredMeter(|data|, m, |bytes|)
  {
    hide TokensEnd;
    hide TokensMeter;
    hide HeaderMeter;
    hide DynamicHeader;
    hide StoredEnd;
    hide StoredMeter;
    hide Window;
    var b :| 0 <= BlockEnd(data, m.p - 3, n, b) <= end && n + BlockSize(b) <= cap && BlockMeter(data, m, b) == v;
    assert 0 <= StoredEnd(data, m.p, b.bytes) <= end && n + |b.bytes| <= cap && v == StoredMeter(|data|, m, |b.bytes|);
  }

  lemma StoredPast(data: seq<byte>, m: Meter, bytes: seq<byte>)
    requires StoredEnd(data, m.p, bytes) > 8 * |data|
    ensures StoredMeter(|data|, m, |bytes|).Short? && StoredEnd(data, m.p, bytes) >= m.p + 32
  {
    BoundaryAhead(m.p);
  }

  /** The block's outcome agrees with what is spelled at `m`, after its three header bits. If a
      block is spelled, it is rejected exactly if it runs short; which happens with the reader
      starved, or with contents missing from the input. */
  ghost predicate BlockAgrees(st: Status, b: Block, a: Zbuf, m: Meter, out: seq<byte>)
    reads a, a.buf
    requires a.zout <= a.buf.Length && m.p >= 3
  {
    match st
    case Ok =>
      && BlockEnd(a.data, m.p - 3, |out|, b) == a.p && BlockMeter(a.data, m, b) == Supplied(a.Now())
      && a.Out() == BlockOutput(out, b) && a.zout == |out| + BlockSize(b)
      && (b.Stored? ==> a.p <= 8 * |a.data|)
    case Corrupt =>
      forall cap: nat, end: int, v: Supply :: BlockFits(a.data, m, |out|, cap, end, v) ==>
        v.Short? && ((a.Starved() && a.p <= end) || (end > 8 * |a.data| && end >= m.p + 32))
    case NoRoom => forall end: int, v: Supply :: !BlockFits(a.data, m, |out|, a.Room(), end, v)
  }

  /** Decodes one block after its three header bits. */
  method ParseBlock(a: Zbuf, kind: nat) returns (st: Status, ghost b: Block)
    requires a.Valid() && a.p >= 3 && kind == Window(a.data, a.p - 2, 2)
    modifies a`pos, a`numBits, a`codeBuffer, a`hitZeofOnce, a`p, a`fetched, a`zeros, a`buf, a`zout, a.buf
    modifies a.zLength, a.zLength.Tables(), a.zDistance, a.zDistance.Tables()
    ensures a.Valid() && (a.buf == old(a.buf) || (a.expandable && fresh(a.buf))) && a.Room() == old(a.Room())
    ensures BlockAgrees(st, b, a, old(a.Now()), old(a.Out()))
  {
    hide Zbuf.Reader;
    hide BlockFits;
    hide Window;
    hide TokensEnd;
    hide TokensMeter;
    hide DynamicHeader;
    hide HeaderMeter;
    b := Stored([]);
    ghost var m, n := a.Now(), a.zout;
    if kind == 0 {
      st, b := ParseStored(a);
    } else if kind >= 3 {
      forall cap: nat, end: int, v: Supply ensures !BlockFits(a.data, m, n, cap, end, v) {
        NoSuchBlock(a.data, m, n, cap, end, v);
      }
      return Corrupt, b;
    } else {
      st, b := ParseCompressed(a, kind);
    }
  }

  method ParseStored(a: Zbuf) returns (st: Status, ghost b: Block)
    requires a.Valid() && a.p >= 3 && Window(a.data, a.p - 2, 2) == 0
    modifies a`pos, a`numBits, a`codeBuffer, a`p, a`fetched, a`zeros, a`buf, a`zout, a.buf
    ensures a.Valid() && (a.buf == old(a.buf) || (a.expandable && fresh(a.buf))) && a.Room() == old(a.Room())
    ensures BlockAgrees(st, b, a, old(a.Now()), old(a.Out()))
  {
    hide BlockFits;
    hide StoredEnd;
    hide StoredMeter;
    hide Window;
    ghost var m, n := a.Now(), a.zout;
    ghost var bytes;
    st, bytes := ParseUncompressedBlock(a);
    b := Stored(bytes);
    if !st.Ok? {
      forall cap: nat, end: int, v: Supply | BlockFits(a.data, m, n, cap, end, v)
        ensures if st.Corrupt? then v.Short? && end > 8 * |a.data| && end >= m.p + 32 else cap > a.Room()
      {
        StoredBlock(a.data, m, n, cap, end, v);
        var bs :| 0 <= StoredEnd(a.data, m.p, bs) <= end && n + |bs| <= cap && v == StoredMeter(|a.data|, m, |bs|);
        if st.Corrupt? {
          StoredPast(a.data, m, bs);
        }
      }
    }
  }

  method ParseCompressed(a: Zbuf, kind: nat) returns (st: Status, ghost b: Block)
    requires a.Valid() && a.p >= 3 && kind == Window(a.data, a.p - 2, 2) && 1 <= kind <= 2
    modifies a`pos, a`numBits, a`codeBuffer, a`hitZeofOnce, a`p, a`fetched, a`zeros, a`buf, a`zout, a.buf
    modifies a.zLength, a.zLength.Tables(), a.zDistance, a.zDistance.Tables()
    ensures a.Valid() && (a.buf == old(a.buf) || (a.expandable && fresh(a.buf))) && a.Room() == old(a.Room())
    ensures BlockAgrees(st, b, a, old(a.Now()), old(a.Out()))
  {
    hide Zbuf.Reader;
    hide BlockFits;
    hide TokensFit;
    hide BlockEnd;
    hide BlockMeter;
    hide TokensEnd;
    hide TokensMeter;
    hide CompressedAt;
    hide Expand;
    hide Ready;
    b := Stored([]);
    ghost var c, ts;
    ghost var m := a.Now();
    st, c := PrepareCodes(a, kind);
    if !st.Ok? {
      return;
    }
    CompressedBlock(a.data, m, a.zout, kind, c, a.Now());
    st, ts := ParseHuffmanBlock(a, c);
    b := Compressed(kind, ts);
  }

  /** Builds the codes of a fixed or dynamic block. */
  method PrepareCodes(a: Zbuf, kind: nat) returns (st: Status, ghost c: Codes)
    requires a.Valid() && a.p >= 3 && kind == Window(a.data, a.p - 2, 2) && 1 <= kind <= 2
    modifies a`pos, a`numBits, a`codeBuffer, a`hitZeofOnce, a`p, a`fetched, a`zeros
    modifies a.zLength, a.zLength.Tables(), a.zDistance, a.zDistance.Tables()
    ensures a.Valid() && st != NoRoom
    ensures a.Out() == old(a.Out())
    ensures st.Ok? ==> Ready(a, c) && CompressedAt(a.data, old(a.Now()), kind, c, a.Now())
    ensures !st.Ok? ==> forall cap: nat, end: int, v: Supply ::
              BlockFits(a.data, old(a.Now()), a.zout, cap, end, v) ==> v.Short? && a.Starved() && a.p <= end
  {
    hide Zbuf.Reader;
    hide Huffman.Built;
    hide BlockFits;
    hide DynamicHeader;
    hide HeaderMeter;
    hide Window;
    c := FixedCodes();
    if kind == 1 {
      FixedCodesComplete();
      st := BuildCodes(a, FixedLit(), FixedDist());
    } else {
      ghost var m := a.Now();
      st := ComputeHuffmanCodes(a);
      c := Codes(a.zLength.lens, a.zDistance.lens);
      forall cap: nat, end: int, v: Supply
        ensures !st.Ok? && BlockFits(a.data, m, a.zout, cap, end, v) ==> v.Short? && a.Starved() && a.p <= end
      {
        NoSuchBlock(a.data, m, a.zout, cap, end, v);
      }
    }
  }

  // ----- the whole stream -----

  /** The two-byte zlib header (section 2.2 of RFC 1950): more input follows, the check bits
      divide, no preset dictionary, method 8. */
  predicate ZlibHeader(data: seq<byte>) {
    && |data| > 2
    && (256 * data[0] as int + data[1]) % 31 == 0
    && data[1] / 32 % 2 == 0
    && data[0] % 16 == 8
  }

  function StartMeter(parseHeader: bool): Meter {
    if parseHeader then Meter(16, 2, false) else Meter(0, 0, false)
  }

  /** The decoder's outcome agrees with the input. Success means that the blocks `bs` are what
      the zero-extended input spells, in full supply, and that the output is theirs. If a stream
      is spelled, it is rejected exactly if it runs short, which happens only past what is
      always read; and room runs out only if no stream fits. */
  ghost predicate StreamAgrees(st: Status, bs: seq<Block>, a: Zbuf, parseHeader: bool)
    reads a, a.buf
    requires a.zout <= a.buf.Length
  {
    var m := StartMeter(parseHeader);
    match st
    case Ok =>
      && (parseHeader ==> ZlibHeader(a.data))
      && StreamEnd(a.data, m.p, 0, bs) == a.p && StreamMeter(a.data, m, bs) == Supplied(a.Now())
      && a.Out() == Output([], bs) && a.zout == TotalSize(bs) && a.p <= 8 * |a.data| + MAX_OVERRUN
    case Corrupt =>
      || (parseHeader && !ZlibHeader(a.data))
      || forall cap: nat, end: int, v: Supply ::
           StreamFits(a.data, m, 0, cap, end, v) ==> v.Short? && end > AlwaysRead(a.data, parseHeader)
    case NoRoom => forall end: int, v: Supply :: !StreamFits(a.data, m, 0, a.Room(), end, v)
  }

  /** The usual headers, with one more byte after them; and one with a wrong check, one that asks for a
      preset dictionary, one with another method, and one with nothing after it. */
  lemma ZlibHeaders(b: byte)
    ensures ZlibHeader([0x78, 0x01, b]) && ZlibHeader([0x78, 0x5E, b]) && ZlibHeader([0x78, 0x9C, b]) && ZlibHeader([0x78, 0xDA, b])
    ensures ZlibHeader([0x18, 0x19, b])
    ensures !ZlibHeader([0x78, 0x9D, b]) && !ZlibHeader([0x78, 0xBB, b]) && !ZlibHeader([0x79, 0x94, b]) && !ZlibHeader([0x78, 0x9C])
  {
  }

  /** How far every stream can be read: to the end of the input, and through the first four
      bytes in any case, since the first bits are taken from a full bit buffer. */
  function AlwaysRead(data: seq<byte>, parseHeader: bool): nat {
    var first := StartMeter(parseHeader).p + 32;
    if 8 * |data| >= first then 8 * |data| else first
  }

  method ParseZlibHeader(a: Zbuf) returns (ok: bool)
    requires a.Reader() && a.numBits == 0 && a.pos == 0 && a.p == 0
    modifies a`pos, a`p, a`fetched, a`zeros
    ensures a.Reader() && ok == ZlibHeader(a.data) && a.p == 16
  {
    WindowByte(a.data, 0);
    WindowByte(a.data, 1);
    hide Window;
    var cmf := a.GetAligned();
    var cm := cmf % 16;
    var flg := a.GetAligned();
    if a.pos >= |a.data| {
      return false;
    }
    if (256 * cmf as int + flg) % 31 != 0 {
      return false;
    }
    if flg / 32 % 2 != 0 {
      return false;
    }
    if cm != 8 {
      return false;
    }
    return true;
  }

  /** Inflates a whole stream; terminates on every input. */
  method ParseZlib(a: Zbuf, parseHeader: bool) returns (st: Status, ghost bs: seq<Block>)
    requires a.Valid() && a.numBits == 0 && a.pos == 0 && a.p == 0 && a.zout == 0 && !a.hitZeofOnce
    modifies a, a.buf, a.zLength, a.zLength.Tables(), a.zDistance, a.zDistance.Tables()
    ensures a.Valid() && (a.buf == old(a.buf) || (a.expandable && fresh(a.buf))) && a.Room() == old(a.Room())
    ensures StreamAgrees(st, bs, a, parseHeader)
  {
    bs := [];
    if parseHeader {
      var ok := ParseZlibHeader(a);
      if !ok {
        return Corrupt, bs;
      }
    }
    st, bs := ParseBlocks(a, parseHeader);
  }

  /** The bit buffer was full when the first block began. */
  ghost predicate Primed(a: Zbuf, start: nat)
    reads a
  {
    8 * (|a.data| + a.zerosBefore) >= start + 32
  }

  /** One block with its three header bits, of a stream that began at `start`. */
  method ParseNext(a: Zbuf, ghost start: nat, ghost first: bool) returns (final: nat, st: Status, ghost b: Block)
    requires a.Valid() && a.p >= start
    requires if first then a.numBits == 0 && !a.hitZeofOnce && a.p == start && start % 8 == 0 else Primed(a, start)
    modifies a, a.buf, a.zLength, a.zLength.Tables(), a.zDistance, a.zDistance.Tables()
    ensures a.Valid() && (a.buf == old(a.buf) || (a.expandable && fresh(a.buf))) && a.Room() == old(a.Room())
    ensures final == Window(a.data, old(a.p), 1) <= 1 && Primed(a, start)
    ensures BlockAgrees(st, b, a, Take(Take(old(a.Now()), 1), 2), old(a.Out()))
    ensures st.Ok? ==> start <= a.p <= 8 * |a.data| + MAX_OVERRUN
    ensures st.Ok? ==> OnesFrom(a.data, a.p) < OnesFrom(a.data, old(a.p))
  {
    hide Zbuf.Reader;
    hide BlockEnd;
    hide BlockMeter;
    hide BlockFits;
    hide Window;
    hide OnesFrom;
    hide BlockOutput;
    hide BlockSize;
    ghost var p, n := a.p, a.zout;
    FirstBit(a.data, p);
    final := ReadFinal(a, start, first);
    var kind := a.Receive(2);
    hide Take;
    st, b := ParseBlock(a, kind);
    if st.Ok? {
      BlockRead(a.data, p, n, b);
    }
  }

  /** What having read a block says of the cursor. */
  lemma BlockRead(data: seq<byte>, p: nat, n: nat, b: Block)
    requires BlockEnd(data, p, n, b) >= 0
    ensures var q := BlockEnd(data, p, n, b);
            && OnesFrom(data, q) < OnesFrom(data, p) && q >= p + 3
            && (!b.Stored? ==> q <= 8 * |data| + MAX_OVERRUN)
  {
    hide BlockEnd;
    hide OnesFrom;
    BlockUsesOnes(data, p, n, b);
    BlockForward(data, p, n, b);
    if !b.Stored? {
      BlockOverrun(data, p, n, b);
    }
  }

  /** Reads the bit that marks the last block; reading the first one fills the bit buffer. */
  method ReadFinal(a: Zbuf, ghost start: nat, ghost first: bool) returns (final: nat)
    requires a.Reader()
    requires if first then a.numBits == 0 && !a.hitZeofOnce && a.p == start && start % 8 == 0 else Primed(a, start)
    modifies a`pos, a`numBits, a`codeBuffer, a`p, a`fetched, a`zeros, a`zerosBefore
    ensures a.Reader() && Primed(a, start)
    ensures final == Window(a.data, old(a.p), 1) && a.Now() == Take(old(a.Now()), 1)
  {
    hide Window;
    final := a.Receive(1);
    a.zerosBefore := a.zeros;
  }

  method ParseBlocks(a: Zbuf, ghost parseHeader: bool) returns (st: Status, ghost bs: seq<Block>)
    requires a.Valid() && a.p == StartMeter(parseHeader).p && a.zout == 0 && (parseHeader ==> ZlibHeader(a.data))
    requires a.numBits == 0 && !a.hitZeofOnce
    modifies a, a.buf, a.zLength, a.zLength.Tables(), a.zDistance, a.zDistance.Tables()
    ensures a.Valid() && (a.buf == old(a.buf) || (a.expandable && fresh(a.buf))) && a.Room() == old(a.Room())
    ensures StreamAgrees(st, bs, a, parseHeader)
  {
    hide BlockEnd;
    hide BlockMeter;
    hide StreamFits;
    hide BlockFits;
    hide Progress;
    hide Window;
    hide ZlibHeader;
    hide StreamEnd;
    hide StreamMeter;
    hide OnesFrom;
    hide BlockOutput;
    hide BlockSize;
    hide Take;
    ghost var m0 := a.Now();
    assert m0 == StartMeter(parseHeader);
    NoProgress(a.data, m0);
    bs := [];
    var final := 0;
    while final != 1
      invariant a.Valid() && (a.buf == old(a.buf) || (a.expandable && fresh(a.buf))) && a.Room() == old(a.Room())
      invariant if final != 1 then Progress(a.data, m0, bs, a.Now(), a.zout)
                else && StreamEnd(a.data, m0.p, 0, bs) == a.p && StreamMeter(a.data, m0, bs) == Supplied(a.Now())
                     && a.p <= 8 * |a.data| + MAX_OVERRUN
      invariant final <= 1 && a.Out() == Output([], bs) && a.zout == TotalSize(bs) && a.p >= m0.p
      invariant if bs == [] then a.numBits == 0 && !a.hitZeofOnce && a.p == m0.p else Primed(a, m0.p)
      decreases OnesFrom(a.data, a.p), 1 - final
    {
      ghost var m, n := a.Now(), a.zout;
      ThreeBits(m);
      ghost var b;
      final, st, b := ParseNext(a, m0.p, bs == []);
      if !st.Ok? {
        Refused(st, b, a, parseHeader, bs, m, n);
        return;
      }
      ProgressStep(a.data, m0, bs, m, n, b, a.Now());
      OutputAppend([], bs, b);
      TotalSizeAppend(bs, b);
      bs := bs + [b];
    }
    return Ok, bs;
  }

  lemma NoProgress(data: seq<byte>, m: Meter)
    ensures Progress(data, m, [], m, 0)
  {
  }

  /** A block refused is a stream refused. */
  lemma Refused(st: Status, b: Block, a: Zbuf, parseHeader: bool, bs: seq<Block>, m: Meter, n: nat)
    requires !st.Ok? && a.Valid() && m.p >= StartMeter(parseHeader).p && Primed(a, StartMeter(parseHeader).p)
    requires Progress(a.data, StartMeter(parseHeader), bs, m, n)
    requires Take(Take(m, 1), 2).p == m.p + 3
    requires forall cap: nat, end: int, v: Supply :: BlockFits(a.data, Take(Take(m, 1), 2), n, cap, end, v) ==>
               if st.NoRoom? then cap != a.Room()
               else v.Short? && ((a.Starved() && a.p <= end) || (end > 8 * |a.data| && end >= m.p + 35))
    ensures StreamAgrees(st, bs, a, parseHeader)
  {
    hide StreamFits;
    hide BlockFits;
    hide Progress;
    hide Take;
    hide Window;
    var m0 := StartMeter(parseHeader);
    forall cap: nat, end: int, v: Supply | StreamFits(a.data, m0, 0, cap, end, v)
      ensures if st.NoRoom? then cap != a.Room() else v.Short? && end > AlwaysRead(a.data, parseHeader)
    {
      ProgressBlock(a.data, m0, bs, m, n, cap, end, v);
    }
  }

  lemma FirstBit(data: seq<byte>, p: nat)
    ensures Window(data, p, 1) <= 1
  {
    WindowBound(data, p, 1);
    assert Pow2(1) == 2;
  }

  // ----- entry points -----

  /** Decodes into a caller's buffer: the number of bytes written, or -1. A stream that the
      zero-extended input spells and that fits the buffer is decoded, to the bytes it means,
      if and only if it is in full supply; and nothing else is decoded. It is if it ends within
      what is always read, and only if it ends little beyond the input. */
  method DecodeBuffer(obuf: array<byte>, data: seq<byte>, parseHeader: bool) returns (r: int)
    requires obuf.Length <= UINT_MAX
    modifies obuf
    ensures -1 <= r <= obuf.Length
    ensures r >= 0 ==> exists bs :: Decodes(data, parseHeader, bs, obuf[..r])
    ensures forall bs :: && Spells(data, parseHeader, bs) && TotalSize(bs) <= obuf.Length ==>
                           && (r >= 0 <==> InSupply(data, parseHeader, bs))
                           && (r >= 0 ==> r == TotalSize(bs) && obuf[..r] == Output([], bs))
                           && SupplyBounds(data, parseHeader, bs)
  {
    hide StreamEnd;
    hide StreamMeter;
    hide ZlibHeader;
    hide StreamFits;
    var a := new Zbuf(data, obuf, false, 0);
    ghost var bs;
    var st;
    st, bs := ParseZlib(a, parseHeader);
    ghost var m := StartMeter(parseHeader);
    forall cs | Spells(data, parseHeader, cs) && TotalSize(cs) <= obuf.Length
      ensures st != NoRoom && (st.Ok? <==> InSupply(data, parseHeader, cs)) && SupplyBounds(data, parseHeader, cs)
      ensures st.Ok? ==> bs == cs
    {
      SpelledFits(data, m, cs, obuf.Length);
      StreamUnique(data, m.p, 0, bs, cs);
    }
    if st.Ok? {
      assert Decodes(data, parseHeader, bs, a.Out());
      return a.zout;
    }
    return -1;
  }

  /** The zero-extended input spells the stream `bs`, after a header if there is to be one. */
  ghost predicate Spells(data: seq<byte>, parseHeader: bool, bs: seq<Block>) {
    StreamEnd(data, StartMeter(parseHeader).p, 0, bs) >= 0 && (parseHeader ==> ZlibHeader(data))
  }

  ghost predicate InSupply(data: seq<byte>, parseHeader: bool, bs: seq<Block>) {
    StreamMeter(data, StartMeter(parseHeader), bs).Supplied?
  }

  ghost predicate Decodes(data: seq<byte>, parseHeader: bool, bs: seq<Block>, out: seq<byte>) {
    Spells(data, parseHeader, bs) && InSupply(data, parseHeader, bs) && out == Output([], bs)
  }

  /** Streams that end within what is always read are in full supply; streams that end far
      beyond the input are not. */
  ghost predicate SupplyBounds(data: seq<byte>, parseHeader: bool, bs: seq<Block>) {
    var end := StreamEnd(data, StartMeter(parseHeader).p, 0, bs);
    && (end <= AlwaysRead(data, parseHeader) ==> InSupply(data, parseHeader, bs))
    && (InSupply(data, parseHeader, bs) ==> end <= 8 * |data| + MAX_OVERRUN)
  }

  lemma SpelledFits(data: seq<byte>, m: Meter, bs: seq<Block>, cap: nat)
    requires StreamEnd(data, m.p, 0, bs) >= 0 && TotalSize(bs) <= cap
    ensures StreamFits(data, m, 0, cap, StreamEnd(data, m.p, 0, bs), StreamMeter(data, m, bs))
  {
    hide StreamEnd;
    hide StreamMeter;
    assert 0 + TotalSize(bs) <= cap;
  }

  /** Decodes into a buffer of its own that starts at `initialSize` bytes and grows, from an
      allocator that gives blocks up to `memory` bytes. A stream that the zero-extended input
      spells is decoded if and only if it is in full supply and the buffer can be doubled to the
      output's size. */
  method DecodeMalloc(data: seq<byte>, initialSize: nat, parseHeader: bool, memory: nat)
    returns (st: Status, out: seq<byte>)
    requires 0 < initialSize <= UINT_MAX
    ensures st.Ok? ==> exists bs :: Decodes(data, parseHeader, bs, out)
    ensures forall bs :: Spells(data, parseHeader, bs) ==>
                           && (st.Ok? <==> && InSupply(data, parseHeader, bs)
                                           && initialSize <= memory && TotalSize(bs) <= Grown(initialSize, memory))
                           && (st.Ok? ==> out == Output([], bs))
  {
    hide StreamEnd;
    hide StreamMeter;
    hide ZlibHeader;
    hide StreamFits;
    if initialSize > memory {
      return NoRoom, [];
    }
    var p := new byte[initialSize](_ => 0);
    var a := new Zbuf(data, p, true, memory);
    ghost var bs;
    ghost var room := a.Room();
    st, bs := ParseZlib(a, parseHeader);
    out := a.buf[..a.zout];
    ghost var m := StartMeter(parseHeader);
    forall cs | Spells(data, parseHeader, cs)
      ensures st.Ok? ==> bs == cs && TotalSize(cs) <= room
      ensures st.Ok? <==> InSupply(data, parseHeader, cs) && TotalSize(cs) <= room
    {
      if TotalSize(cs) <= room {
        SpelledFits(data, m, cs, room);
      }
      StreamUnique(data, m.p, 0, bs, cs);
    }
    assert st.Ok? ==> Decodes(data, parseHeader, bs, out);
  }

  /** The byte 3, without header, ends inside its only block; it is decoded all the same. */
  method TruncatedInput() returns (r: int)
    ensures r == 0 && StreamEnd([3], 0, 0, [Fixed([])]) == 10 > 8 * |[3]|
  {
    hide StreamEnd;
    hide StreamMeter;
    ShortBlock();
    var obuf := new byte[0];
    r := DecodeBuffer(obuf, [3], false);
    ghost var bs := [Fixed([])];
    assert Spells([3], false, bs) && TotalSize(bs) <= obuf.Length;
  }

  // ----- growing from nothing -----

  /** The capacity after `k` doublings. */
  function Doubled(limit: nat, k: nat): nat
    decreases k
  {
    if k == 0 then limit else Doubled(2 * limit, k - 1)
  }

  /** The doubling loop leaves its range exactly when it starts from a positive capacity: from
      zero it never reaches a needed size, nor the point where it gives up. */
  lemma DoublingEndsIff(limit: nat, need: nat)
    requires need > 0
    ensures (exists k :: Doubled(limit, k) >= need || Doubled(limit, k) > UINT_MAX / 2) <==> limit > 0
  {
    if limit > 0 {
      DoubledGrows(limit, need);
    } else {
      forall k: nat ensures Doubled(0, k) == 0 {
        DoubledZero(k);
      }
    }
  }

  /** The capacity that can be had is the initial one doubled as long as the next doubling stays within
      32 bits and the allocator's limit. */
  lemma {:induction false} GrownByDoubling(limit: nat, memory: nat) returns (k: nat)
    requires limit > 0
    ensures Grown(limit, memory) == Doubled(limit, k)
    ensures 2 * Grown(limit, memory) > memory || Grown(limit, memory) > UINT_MAX / 2
    ensures forall j :: 1 <= j <= k ==> Doubled(limit, j) <= memory && Doubled(limit, j) <= UINT_MAX
    decreases UINT_MAX - limit
  {
    k := 0;
    if limit <= UINT_MAX / 2 && 2 * limit <= memory {
      var m := GrownByDoubling(2 * limit, memory);
      k := m + 1;
      forall j | 1 <= j <= k
        ensures Doubled(limit, j) <= memory && Doubled(limit, j) <= UINT_MAX
      {
        if j > 1 {
          assert Doubled(limit, j) == Doubled(2 * limit, j - 1);
        } else {
          assert Doubled(2 * limit, 0) == 2 * limit;
        }
      }
    }
  }

  lemma {:induction false} DoubledGrows(limit: nat, k: nat)
    requires limit > 0
    ensures Doubled(limit, k) >= limit + k
    decreases k
  {
    if k > 0 {
      DoubledGrows(2 * limit, k - 1);
    }
  }

  lemma {:induction false} DoubledZero(k: nat)
    ensures Doubled(0, k) == 0
  {
    if k > 0 {
      DoubledZero(k - 1);
    }
  }
}
