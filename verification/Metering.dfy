/** Which streams the decoder reads in full. Its bit buffer is filled ahead of the cursor, with
    zero bytes once the input has ended; 16 more bits are added, once, for a symbol that may
    need them; and a symbol that would start in those, or a block that ends in them, is refused.
    All of this depends on the input only through its length and what is read where. */
module Metering {
  import opened Words
  import opened BitStream
  import opened Canonical
  import opened DeflateFormat

  /** The cursor, the bytes taken into the buffer so far, and whether the 16 bits were added
      (they count as two bytes). */
  datatype Meter = Meter(p: nat, got: nat, hit: bool)

  datatype Supply = Short | Supplied(m: Meter)

  /** The buffer topped up to more than 24 bits. */
  function Filled(m: Meter): Meter {
    m.(got := (m.p + 24) / 8 + 1)
  }

  /** After reading `n` bits as a number. */
  function Take(m: Meter, n: nat): Meter {
    var f := if 8 * m.got - m.p < n then Filled(m) else m;
    f.(p := m.p + n)
  }

  lemma ThreeBits(m: Meter)
    ensures Take(Take(m, 1), 2).p == m.p + 3
  {
  }

  function TakeAll(m: Meter, n: nat, k: nat): Meter {
    if k == 0 then m else Take(TakeAll(m, n, k - 1), n)
  }

  /** The buffer made ready for a symbol, in an input of `size` bytes. */
  function Topped(size: nat, m: Meter): Supply {
    if 8 * m.got - m.p >= 16 then Supplied(m)
    else if m.got < size then Supplied(Filled(m))
    else if m.hit then Short
    else Supplied(m.(got := m.got + 2, hit := true))
  }

  /** After reading a symbol of `n` bits. */
  function Symbol(size: nat, m: Meter, n: nat): Supply {
    match Topped(size, m)
    case Short => Short
    case Supplied(f) => Supplied(f.(p := m.p + n))
  }

  /** At the end of a block: none of the 16 bits may have been read. */
  function AtEnd(m: Meter): Supply {
    if m.hit && 8 * m.got - m.p < 16 then Short else Supplied(m)
  }

  // ----- tokens, headers, blocks, streams -----

  ghost function StepMeter(data: seq<byte>, c: Codes, m: Meter): Supply {
    var z := SymbolAt(data, m.p, c.lit);
    if z < 0 || z >= 286 then Short
    else
      match Symbol(|data|, m, c.lit[z])
      case Short => Short
      case Supplied(next) =>
        if z < 256 then Supplied(next) else if z == 256 then AtEnd(next) else MatchMeter(data, c, next, z - 257)
  }

  ghost function MatchMeter(data: seq<byte>, c: Codes, m: Meter, i: nat): Supply
    requires i < 29
  {
    var next := Take(m, LengthExtra(i));
    var y := SymbolAt(data, next.p, c.dist);
    if y < 0 || y >= 30 then Short
    else
      match Symbol(|data|, next, c.dist[y])
      case Short => Short
      case Supplied(last) => Supplied(Take(last, DistExtra(y)))
  }

  ghost function TokensMeter(data: seq<byte>, c: Codes, m: Meter, ts: seq<Token>): Supply
    decreases |ts|
  {
    match StepMeter(data, c, m)
    case Short => Short
    case Supplied(next) => if ts == [] then Supplied(next) else TokensMeter(data, c, next, ts[1..])
  }

  /** A list of `total` code lengths, of which `known` are already read. */
  ghost function LengthsMeter(data: seq<byte>, cl: seq<nat>, m: Meter, total: nat, known: nat): Supply
    requires |cl| == 19
    decreases total - known
  {
    if known >= total then Supplied(m)
    else
      var z := SymbolAt(data, m.p, cl);
      if z < 0 then Short
      else
        match Symbol(|data|, m, cl[z])
        case Short => Short
        case Supplied(next) =>
          if z < 16 then LengthsMeter(data, cl, next, total, known + 1)
          else LengthsMeter(data, cl, Take(next, RepeatBits(z)), total, known + Repeat(data, next.p, z))
  }

  ghost function HeaderMeter(data: seq<byte>, m: Meter): Supply {
    var p := m.p;
    var hlit, hdist, hclen := Window(data, p, 5) + 257, Window(data, p + 5, 5) + 1, Window(data, p + 10, 4) + 4;
    CountBounds(data, p);
    var next := TakeAll(Take(Take(Take(m, 5), 5), 4), 3, hclen);
    LengthsMeter(data, LengthLengths(data, p + 14, hclen), next, hlit + hdist, 0)
  }

  /** A stored block's bytes come from the input itself, and must all be there. */
  function StoredMeter(size: nat, m: Meter, len: nat): Supply {
    var q := ByteBoundary(m.p) + 32 + 8 * len;
    if q <= 8 * size then Supplied(Meter(q, q / 8, m.hit)) else Short
  }

  /** The contents of a block after its three header bits. */
  ghost function BlockMeter(data: seq<byte>, m: Meter, b: Block): Supply {
    match b
    case Stored(bytes) => StoredMeter(|data|, m, |bytes|)
    case Fixed(ts) => TokensMeter(data, FixedCodes(), m, ts)
    case Dynamic(ts) =>
      match HeaderMeter(data, m)
      case Short => Short
      case Supplied(next) =>
        match DynamicHeader(data, m.p)
        case NoHeader => Short
        case Header(codes, _) => TokensMeter(data, codes, next, ts)
  }

  ghost function StreamMeter(data: seq<byte>, m: Meter, bs: seq<Block>): Supply
    decreases |bs|
  {
    if bs == [] then Short
    else
      match BlockMeter(data, Take(Take(m, 1), 2), bs[0])
      case Short => Short
      case Supplied(next) => if |bs| == 1 then Supplied(next) else StreamMeter(data, next, bs[1..])
  }

  // ----- partial readings -----

  /** The tokens `ts`, with no end of block after them, are supplied from `m` to `last`. */
  ghost predicate TokensPassed(data: seq<byte>, c: Codes, m: Meter, ts: seq<Token>, last: Meter)
    decreases |ts|
  {
    if ts == [] then last == m
    else
      var s := StepMeter(data, c, m);
      s.Supplied? && TokensPassed(data, c, s.m, ts[1..], last)
  }

  lemma {:induction false} TokensPassedAppend(data: seq<byte>, c: Codes, m: Meter, ts: seq<Token>, last: Meter)
    requires TokensPassed(data, c, m, ts, last)
    ensures var s := StepMeter(data, c, last);
            && TokensMeter(data, c, m, ts) == s
            && (s.Supplied? ==> forall t :: TokensPassed(data, c, m, ts + [t], s.m))
    decreases |ts|
  {
    hide StepMeter;
    if ts != [] {
      TokensPassedAppend(data, c, StepMeter(data, c, m).m, ts[1..], last);
    }
    var s := StepMeter(data, c, last);
    if s.Supplied? {
      forall t ensures TokensPassed(data, c, m, ts + [t], s.m) {
        if ts == [] {
          assert (ts + [t])[1..] == [];
        } else {
          assert (ts + [t])[1..] == ts[1..] + [t];
        }
      }
    }
  }

  /** The blocks `bs`, of which none is the last, are supplied from `m` to `last`. */
  ghost predicate BlocksPassed(data: seq<byte>, m: Meter, bs: seq<Block>, last: Meter)
    decreases |bs|
  {
    if bs == [] then last == m
    else
      var s := BlockMeter(data, Take(Take(m, 1), 2), bs[0]);
      s.Supplied? && BlocksPassed(data, s.m, bs[1..], last)
  }

  lemma {:induction false} BlocksPassedAppend(data: seq<byte>, m: Meter, bs: seq<Block>, last: Meter, b: Block)
    requires BlocksPassed(data, m, bs, last)
    ensures var s := BlockMeter(data, Take(Take(last, 1), 2), b);
            s.Supplied? ==> StreamMeter(data, m, bs + [b]) == s && BlocksPassed(data, m, bs + [b], s.m)
    decreases |bs|
  {
    hide BlockMeter;
    hide Take;
    if bs == [] {
      assert (bs + [b])[1..] == [];
    } else {
      BlocksPassedAppend(data, BlockMeter(data, Take(Take(m, 1), 2), bs[0]).m, bs[1..], last, b);
      assert (bs + [b])[1..] == bs[1..] + [b];
    }
  }

  // ----- what there is to accept -----

  /** Tokens are spelled from the cursor on that end by `end`, bring the output to at most `cap`
      bytes and are supplied as `v` says. */
  ghost predicate TokensFit(data: seq<byte>, c: Codes, m: Meter, n: nat, cap: nat, end: int, v: Supply) {
    exists ts :: && 0 <= TokensEnd(data, c, m.p, n, ts) <= end && n + Size(ts) <= cap
                 && TokensMeter(data, c, m, ts) == v
  }

  lemma TokensFitStep(data: seq<byte>, c: Codes, m: Meter, n: nat, cap: nat, end: int, v: Supply)
    requires TokensFit(data, c, m, n, cap, end, v)
    ensures var s, next := StepAt(data, c, m.p, n), StepMeter(data, c, m);
            && !s.Bad? && s.q <= end
            && (next.Short? ==> v.Short?)
            && (s.EndOfBlock? ==> v == next)
            && (s.Next? ==> n + Length(s.t) <= cap)
            && (s.Next? && next.Supplied? && next.m.p == s.q ==>
                  TokensFit(data, c, next.m, n + Length(s.t), cap, end, v))
  {
    hide StepAt;
    hide StepMeter;
    var ts :| && 0 <= TokensEnd(data, c, m.p, n, ts) <= end && n + Size(ts) <= cap
              && TokensMeter(data, c, m, ts) == v;
    var s := StepAt(data, c, m.p, n);
    if s.Next? {
      TokensForward(data, c, s.q, n + Length(s.t), ts[1..]);
    }
  }

  /** Likewise for a block whose three header bits have been read. */
  ghost predicate BlockFits(data: seq<byte>, m: Meter, n: nat, cap: nat, end: int, v: Supply)
    requires m.p >= 3
  {
    exists b :: && 0 <= BlockEnd(data, m.p - 3, n, b) <= end && n + BlockSize(b) <= cap
                && BlockMeter(data, m, b) == v
  }

  ghost predicate StreamFits(data: seq<byte>, m: Meter, n: nat, cap: nat, end: int, v: Supply) {
    exists bs :: && 0 <= StreamEnd(data, m.p, n, bs) <= end && n + TotalSize(bs) <= cap
                 && StreamMeter(data, m, bs) == v
  }

  /** The first block of a stream, and what is left after it. */
  lemma StreamFitsStep(data: seq<byte>, m: Meter, n: nat, cap: nat, end: int, v: Supply)
    requires StreamFits(data, m, n, cap, end, v)
    ensures var m3 := Take(Take(m, 1), 2);
            exists w :: BlockFits(data, m3, n, cap, end, w) && (w.Short? ==> v.Short?)
    ensures forall b :: BlockEnd(data, m.p, n, b) >= 0 ==> FirstBlock(data, m, n, cap, end, v, b)
  {
    hide BlockEnd;
    hide BlockMeter;
    var bs :| && 0 <= StreamEnd(data, m.p, n, bs) <= end && n + TotalSize(bs) <= cap
              && StreamMeter(data, m, bs) == v;
    var q := BlockEnd(data, m.p, n, bs[0]);
    var m3 := Take(Take(m, 1), 2);
    var w := BlockMeter(data, m3, bs[0]);
    StreamForward(data, q, n + BlockSize(bs[0]), bs[1..]);
    assert BlockFits(data, m3, n, cap, end, w);
    forall b | BlockEnd(data, m.p, n, b) >= 0
      ensures FirstBlock(data, m, n, cap, end, v, b)
    {
      BlockUnique(data, m.p, n, b, bs[0]);
    }
  }

  /** What a stream's fitting says of its first block `b`. */
  ghost predicate FirstBlock(data: seq<byte>, m: Meter, n: nat, cap: nat, end: int, v: Supply, b: Block) {
    var w := BlockMeter(data, Take(Take(m, 1), 2), b);
    if Window(data, m.p, 1) == 1 then v == w
    else w.Supplied? && w.m.p == BlockEnd(data, m.p, n, b) ==> StreamFits(data, w.m, n + BlockSize(b), cap, end, v)
  }

  // ----- a stream in progress -----

  /** The blocks `bs` have been read from `m0` to `m` and gave `n` bytes: whatever stream there
      is from `m0` goes on from `m`. */
  ghost predicate Progress(data: seq<byte>, m0: Meter, bs: seq<Block>, m: Meter, n: nat) {
    && BlocksSpelled(data, m0.p, 0, bs, m.p) && BlocksPassed(data, m0, bs, m) && n == TotalSize(bs)
    && forall cap: nat, end: int, v: Supply ::
         StreamFits(data, m0, 0, cap, end, v) ==> StreamFits(data, m, n, cap, end, v)
  }

  /** One more block: the stream is complete, or in progress still. */
  lemma ProgressStep(data: seq<byte>, m0: Meter, bs: seq<Block>, m: Meter, n: nat, b: Block, next: Meter)
    requires Progress(data, m0, bs, m, n)
    requires BlockEnd(data, m.p, n, b) == next.p && BlockMeter(data, Take(Take(m, 1), 2), b) == Supplied(next)
    ensures if Window(data, m.p, 1) == 1
            then StreamEnd(data, m0.p, 0, bs + [b]) == next.p && StreamMeter(data, m0, bs + [b]) == Supplied(next)
            else Progress(data, m0, bs + [b], next, n + BlockSize(b))
  {
    hide BlockEnd;
    hide BlockMeter;
    hide StreamEnd;
    hide StreamMeter;
    hide StreamFits;
    hide Take;
    hide BlockSize;
    hide Window;
    BlocksSpelledAppend(data, m0.p, 0, bs, m.p, n, b);
    BlocksPassedAppend(data, m0, bs, m, b);
    TotalSizeAppend(bs, b);
    if Window(data, m.p, 1) != 1 {
      forall cap: nat, end: int, v: Supply | StreamFits(data, m, n, cap, end, v)
        ensures StreamFits(data, next, n + BlockSize(b), cap, end, v)
      {
        StreamFitsStep(data, m, n, cap, end, v);
        assert FirstBlock(data, m, n, cap, end, v, b);
      }
    }
  }

  /** A stream in progress has a next block, whose running short is the stream's. */
  lemma ProgressBlock(data: seq<byte>, m0: Meter, bs: seq<Block>, m: Meter, n: nat, cap: nat, end: int, v: Supply)
    requires Progress(data, m0, bs, m, n) && StreamFits(data, m0, 0, cap, end, v)
    ensures var m3 := Take(Take(m, 1), 2);
            exists w :: BlockFits(data, m3, n, cap, end, w) && (w.Short? ==> v.Short?)
  {
    hide StreamFits;
    StreamFitsStep(data, m, n, cap, end, v);
  }
}
