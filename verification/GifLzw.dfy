/** GIF raster data (appendix F of GIF89a): variable-width LZW codes packed into sub-blocks, a
    dictionary kept as prefix links, and the painting of each string in arrival order. */
module GifLzw {
  import opened Words
  import opened BitStream
  import opened Arith
  import opened GifOrder

  const TABLE_SIZE: nat := 8192

  // ----- LZW over strings, the reference -----

  /** `dict` holds the string of each code below the next free one (the two control codes have
      none); `prev` is the previous code or -1; `size` is the current code width. */
  datatype State = State(dict: seq<seq<byte>>, prev: int, size: nat, needClear: bool)

  datatype Step = More(st: State, str: seq<byte>) | Stop | Error

  /** What a run of codes produced, and whether it was accepted. */
  datatype Run = Run(ok: bool, symbols: seq<byte>)

  function Roots(cs: nat): (d: seq<seq<byte>>)
    ensures |d| == Pow2(cs) + 2
  {
    seq(Pow2(cs) + 2, i requires 0 <= i => if i < Pow2(cs) then [(i % 256) as byte] else [])
  }

  function Initial(cs: nat): State {
    State(Roots(cs), -1, cs + 1, true)
  }

  ghost predicate Special(cs: nat, c: int) {
    Pow2(cs) <= c <= Pow2(cs) + 1
  }

  /** Every code but the two control codes has a nonempty string. */
  ghost predicate Sound(cs: nat, st: State) {
    && Pow2(cs) + 2 <= |st.dict| <= TABLE_SIZE
    && (forall c :: 0 <= c < |st.dict| && !Special(cs, c) ==> |st.dict[c]| > 0)
    && (st.prev == -1 || (0 <= st.prev < |st.dict| && !Special(cs, st.prev)))
  }

  /** The code width once the dictionary has `n` strings: one more when `n` no longer fits. */
  function NextSize(n: nat, size: nat): nat {
    if Low(n, size) == 0 && n <= 0x0FFF then size + 1 else size
  }

  /** One code: clear, end, a known string, or the string being defined by this very code. */
  function Feed(cs: nat, st: State, code: nat): Step
    requires Sound(cs, st)
  {
    var n := |st.dict|;
    if code == Pow2(cs) then More(State(st.dict[..Pow2(cs) + 2], -1, cs + 1, false), [])
    else if code == Pow2(cs) + 1 then Stop
    else if code > n || st.needClear then Error
    else if st.prev < 0 then
      if code == n then Error
      else More(State(st.dict, code, NextSize(n, st.size), false), st.dict[code])
    else if n == TABLE_SIZE then Error
    else
      var old' := st.dict[st.prev];
      var next := if code < n then st.dict[code][0] else old'[0];
      var dict := st.dict + [old' + [next]];
      More(State(dict, code, NextSize(n + 1, st.size), false), dict[code])
  }

  lemma FeedSound(cs: nat, st: State, code: nat)
    requires Sound(cs, st)
    ensures var r := Feed(cs, st, code); r.More? ==> Sound(cs, r.st)
  {
  }

  /** Decodes the codes packed in `payload` from bit `q` on, until they end. */
  function Decode(payload: seq<byte>, cs: nat, q: nat, st: State): Run
    requires Sound(cs, st) && st.size > 0
    decreases 8 * |payload| - q
  {
    if q + st.size > 8 * |payload| then Run(true, [])
    else
      match Feed(cs, st, Window(payload, q, st.size))
      case Stop => Run(true, [])
      case Error => Run(false, [])
      case More(st', str) =>
        FeedSound(cs, st, Window(payload, q, st.size));
        var rest := Decode(payload, cs, q + st.size, st');
        Run(rest.ok, str + rest.symbols)
  }

  /** The bytes of the sub-blocks from `pos` on, of which `len` are left in the current one;
      a missing length byte ends the data, and missing data bytes read as zero. */
  function Payload(data: seq<byte>, pos: nat, len: nat): seq<byte>
    requires pos <= |data|
    decreases |data| - pos, len
  {
    if len > 0 then
      [ByteAt(data, pos)] + Payload(data, if pos < |data| then pos + 1 else pos, len - 1)
    else if pos == |data| || data[pos] == 0 then []
    else Payload(data, pos + 1, data[pos])
  }

  // ----- code widths -----

  /** The next free code fits the current width, except at the widest. */
  ghost predicate Fits(st: State) {
    st.size >= 12 || |st.dict| < Pow2(st.size)
  }

  /** Width and dictionary keep step exactly for initial widths from 2 up: the state after a
      clear has room just then, and every code keeps it. */
  lemma InitialFitsIff(cs: nat)
    requires cs <= 12
    ensures Fits(Initial(cs)) <==> cs >= 2
  {
    if cs >= 2 {
      Pow2Mono(2, cs);
    }
  }

  lemma FeedFits(cs: nat, st: State, code: nat)
    requires 2 <= cs && Sound(cs, st) && Fits(st) && cs + 1 <= st.size
    ensures var r := Feed(cs, st, code); r.More? ==> Fits(r.st) && cs + 1 <= r.st.size
  {
    Pow2Mono(2, cs);
    hide NextSize;
    hide Low;
    NextSizeFits(|st.dict|, st.size);
    NextSizeFits(|st.dict| + 1, st.size);
  }

  lemma NextSizeFits(n: nat, size: nat)
    requires size >= 12 || n <= Pow2(size)
    ensures NextSize(n, size) >= size && (NextSize(n, size) >= 12 || n < Pow2(NextSize(n, size)))
  {
    if size < 12 {
      Pow2Mono(size, 11);
      assert Pow2(11) == 2048;
      LowOfPower(size);
    }
  }

  lemma {:induction false} LowOfPower(n: nat)
    ensures Low(Pow2(n), n) == 0
  {
    if n > 0 {
      LowOfPower(n - 1);
    }
  }

  /** Feeding a sequence of codes. */
  function FeedAll(cs: nat, st: State, codes: seq<nat>): Step
    requires Sound(cs, st)
    decreases |codes|
  {
    if codes == [] then More(st, []) else
      match Feed(cs, st, codes[0])
      case More(next, str) =>
        FeedSound(cs, st, codes[0]);
        (match FeedAll(cs, next, codes[1..])
         case More(last, rest) => More(last, str + rest)
         case other => other)
      case other => other
  }

  /** In every run from the start, the next free code fits the current width below 12 bits. */
  lemma EveryRunFits(cs: nat, codes: seq<nat>)
    requires 2 <= cs <= 12
    ensures Sound(cs, Initial(cs))
    ensures var r := FeedAll(cs, Initial(cs), codes); r.More? ==> Sound(cs, r.st) && Fits(r.st)
  {
    InitialSound(cs);
    InitialFitsIff(cs);
    RunFits(cs, Initial(cs), codes);
  }

  lemma {:induction false} RunFits(cs: nat, st: State, codes: seq<nat>)
    requires 2 <= cs && Sound(cs, st) && Fits(st) && cs + 1 <= st.size
    ensures var r := FeedAll(cs, st, codes); r.More? ==> Sound(cs, r.st) && Fits(r.st) && cs + 1 <= r.st.size
    decreases |codes|
  {
    hide Feed;
    hide Fits;
    if codes != [] {
      FeedSound(cs, st, codes[0]);
      FeedFits(cs, st, codes[0]);
      var r := Feed(cs, st, codes[0]);
      if r.More? {
        RunFits(cs, r.st, codes[1..]);
      }
    }
  }

  // ----- the dictionary as prefix links -----

  /** The link tables spell the strings of `dict`: a code's string is its prefix's string, with a
      smaller code, and one more symbol. */
  ghost predicate Links(prefix: seq<int>, first: seq<byte>, suffix: seq<byte>, dict: seq<seq<byte>>, cs: nat) {
    && |prefix| == |first| == |suffix| == TABLE_SIZE
    && |dict| <= TABLE_SIZE
    && forall c :: 0 <= c < |dict| && !Special(cs, c) ==> Linked(prefix, first, suffix, dict, cs, c)
  }

  ghost predicate Linked(prefix: seq<int>, first: seq<byte>, suffix: seq<byte>, dict: seq<seq<byte>>, cs: nat, c: int)
    requires |prefix| == |first| == |suffix| == TABLE_SIZE && 0 <= c < |dict| <= TABLE_SIZE
  {
    && |dict[c]| > 0 && first[c] == dict[c][0]
    && -1 <= prefix[c] < c
    && if prefix[c] < 0 then dict[c] == [suffix[c]]
       else !Special(cs, prefix[c]) && dict[c] == dict[prefix[c]] + [suffix[c]]
  }

  /** Entering one more code keeps every earlier string. */
  lemma LinksAdd(prefix: seq<int>, first: seq<byte>, suffix: seq<byte>, dict: seq<seq<byte>>, cs: nat, prev: nat, next: byte)
    requires Links(prefix, first, suffix, dict, cs) && |dict| < TABLE_SIZE
    requires prev < |dict| && !Special(cs, prev)
    ensures Links(prefix[|dict| := prev], first[|dict| := first[prev]], suffix[|dict| := next], dict + [dict[prev] + [next]], cs)
  {
    var n := |dict|;
    var p, f, s, d := prefix[n := prev], first[n := first[prev]], suffix[n := next], dict + [dict[prev] + [next]];
    assert Linked(prefix, first, suffix, dict, cs, prev);
    forall c | 0 <= c < |d| && !Special(cs, c) ensures Linked(p, f, s, d, cs, c) {
      if c < n {
        assert Linked(prefix, first, suffix, dict, cs, c);
      }
    }
  }

  lemma LinksCut(prefix: seq<int>, first: seq<byte>, suffix: seq<byte>, dict: seq<seq<byte>>, cs: nat, n: nat)
    requires Links(prefix, first, suffix, dict, cs) && n <= |dict|
    ensures Links(prefix, first, suffix, dict[..n], cs)
  {
    forall c | 0 <= c < n && !Special(cs, c) ensures Linked(prefix, first, suffix, dict[..n], cs, c) {
      assert Linked(prefix, first, suffix, dict, cs, c);
    }
  }

  // ----- the decoder -----

  /** The first pass's row step, and how many passes follow it. */
  function FirstStride(interlaced: bool): (r: nat)
    ensures r > 0
  {
    if interlaced then 8 else 1
  }

  function FirstParse(interlaced: bool): (r: nat)
    ensures r <= 3
  {
    if interlaced then 3 else 0
  }

  class Gif {
    const prefix: array<int>
    const first: array<byte>
    const suffix: array<byte>
    const out: array<Pixel>
    const history: array<bool>
    const palette: seq<Pixel>

    // The rectangle and the cursor, in pixels.
    const line: nat
    const startX: nat
    const startY: nat
    const maxX: nat
    const maxY: nat
    var curX: nat
    var curY: nat
    var step: nat
    var parse: nat

    // The dictionary's next free code, the previous code or -1, the code width, and whether a
    // clear code must come first.
    var avail: nat
    var oldcode: int
    var codeSize: nat
    var needClear: bool
    ghost var dict: seq<seq<byte>>

    ghost const width: nat
    ghost const height: nat
    /** All positions of the rectangle in arrival order. */
    ghost const ps: seq<nat>
    ghost const image0: seq<Pixel>
    ghost const history0: seq<bool>
    /** The symbols emitted so far, and the cursor's row and row step. */
    ghost var emitted: seq<byte>
    ghost var row: nat
    ghost var stride: nat

    /** Sets up the cursor for a `w` by `h` rectangle at column `x` and row `y`. */
    constructor (out: array<Pixel>, history: array<bool>, palette: seq<Pixel>, line: nat,
                 x: nat, y: nat, w: nat, h: nat, interlaced: bool)
      requires |palette| == 256 && x + w <= line && out.Length == history.Length
      requires out.Length >= RowStart(y + h, line)
      ensures Shape() && Cursor() && emitted == []
      ensures this.out == out && this.history == history && this.palette == palette
      ensures ps == Pixels(x + RowStart(y, line), line, RowOrder(interlaced, h), w)
      ensures image0 == out[..] && history0 == history[..]
    {
      this.out, this.history, this.palette, this.line := out, history, palette, line;
      var top, bottom := RowStart(y, line), RowStart(y, line) + RowStart(h, line);
      startX, startY, maxX, maxY := x, top, x + w, bottom;
      curX, curY := x, if w == 0 then bottom else top;
      step, parse := RowStart(FirstStride(interlaced), line), FirstParse(interlaced);
      prefix := new int[TABLE_SIZE](_ => 0);
      first := new byte[TABLE_SIZE](_ => 0);
      suffix := new byte[TABLE_SIZE](_ => 0);
      width, height := w, h;
      ps := Pixels(x + RowStart(y, line), line, RowOrder(interlaced, h), w);
      image0, history0 := out[..], history[..];
      emitted := [];
      avail, oldcode, codeSize, needClear, dict := 0, -1, 0, true, [];
      row, stride := if w == 0 then h else 0, FirstStride(interlaced);
      new;
      hide FirstStride;
      hide FirstParse;
      hide Pixels;
      hide RowOrder;
      hide Cursor;
      assert RowStart(0, line) == 0;
      hide RowStart;
      PositionsInImage(x, y, line, w, h, interlaced, out.Length);
      AtStart(interlaced);
    }

    /** A cursor at the rectangle's corner, or below it if there are no columns, has all of the
        rectangle before it. */
    lemma AtStart(interlaced: bool)
      requires Shape() && emitted == [] && out[..] == image0 && history[..] == history0
      requires ps == Pixels(startX + startY, line, RowOrder(interlaced, height), width)
      requires curX == startX && row == (if width == 0 then height else 0) && Geometry()
      requires stride == FirstStride(interlaced) && parse == FirstParse(interlaced)
      ensures Cursor()
    {
      hide FirstStride;
      hide FirstParse;
      hide Pixels;
      hide RowPixels;
      hide Pass;
      hide Rest;
      hide RowOrder;
      hide PixelAt;
      hide Paint;
      hide Among;
      assert RowStart(0, line) == 0;
      hide RowStart;
      PaintNothing(image0, ps, palette);
      assert Painted();
      hide Painted;
      StartOfRows(startX + startY, line, interlaced, height, width);
    }

    ghost predicate Shape() {
      && prefix.Length == first.Length == suffix.Length == TABLE_SIZE && first != suffix
      && |palette| == 256 && out.Length == history.Length
      && |image0| == out.Length == |history0|
      && InImage(ps, out.Length)
      && maxX == startX + width && maxY == startY + RowStart(height, line) && maxX <= line
    }

    /** Positions the cursor has still to visit. */
    ghost function Remaining(): seq<nat>
      reads this`row, this`stride, this`curX, this`parse
      requires stride > 0 && curX >= startX
    {
      if row >= height || width == 0 then []
      else
        RowPixels(startX + startY, line, row, curX - startX, width)
        + Pixels(startX + startY, line, Pass(row + stride, stride, height) + Rest(parse, height), width)
    }

    /** The rows from the cursor's on. */
    ghost function Rows(): seq<nat>
      reads this`row, this`stride, this`parse
      requires stride > 0
    {
      Pass(row, stride, height) + Rest(parse, height)
    }

    /** The image is `image0` painted with what was emitted. */
    ghost predicate Painted()
      reads this`emitted, out, history
      requires Shape()
    {
      && out[..] == Paint(image0, ps, palette, emitted)
      && (forall q: nat :: q < history.Length ==> (history[q] <==> history0[q] || Among(ps, |emitted|, q)))
    }

    /** The scaled coordinates agree with the row and its step. */
    ghost predicate Geometry()
      reads this`row, this`stride, this`curY, this`step, this`parse
    {
      parse <= 3 && stride > 0 && step == RowStart(stride, line) && curY == startY + RowStart(row, line)
    }

    /** The image is painted, and the cursor stands at the next position. */
    ghost predicate Cursor()
      reads this`emitted, this`row, this`stride, this`curX, this`curY, this`step, this`parse, out, history
      requires Shape()
    {
      && Painted() && Geometry()
      && startX <= curX && (curX < maxX || width == 0)
      && (row >= height || width == 0 ==> curY >= maxY)
      && Remaining() == if |emitted| < |ps| then ps[|emitted|..] else []
    }

    /** Draws one symbol at the cursor and moves on; once the rectangle is full, symbols are
        ignored. */
    method PutPixel(symbol: byte)
      requires Shape() && Cursor()
      modifies this`curX, this`curY, this`step, this`parse, this`row, this`stride, this`emitted, out, history
      ensures Shape() && Cursor() && emitted == old(emitted) + [symbol]
    {
      hide Paint;
      hide Pass;
      hide Rest;
      hide Pixels;
      hide RowPixels;
      hide RowStart;
      RowEnds(row, height, line);
      if curY >= maxY {
        Ignore(symbol);
        return;
      }
      Draw(symbol);
    }

    ghost method Ignore(symbol: byte)
      requires Shape() && Cursor() && |emitted| >= |ps|
      modifies this`emitted
      ensures Cursor() && emitted == old(emitted) + [symbol]
    {
      hide Paint;
      hide Pass;
      hide Rest;
      hide Pixels;
      hide RowPixels;
      hide RowStart;
      PaintAppend(image0, ps, palette, emitted, symbol);
      AmongNext(ps, |emitted|);
      emitted := emitted + [symbol];
    }

    method Draw(symbol: byte)
      requires Shape() && Cursor() && row < height && width > 0
      modifies this`curX, this`curY, this`step, this`parse, this`row, this`stride, this`emitted, out, history
      ensures Cursor() && emitted == old(emitted) + [symbol]
    {
      hide Paint;
      hide Pass;
      hide Rest;
      hide Pixels;
      hide RowStart;
      ghost var k := |emitted|;
      var idx := curX + curY;
      assert Remaining()[0] == idx;
      ghost var rem := Remaining();
      DrawAt(idx, symbol);
      Advance();
      assert rem[1..] == ps[k + 1..];
    }

    /** Moves the cursor past the pixel just drawn. */
    method Advance()
      requires Shape() && Geometry() && row < height && startX <= curX < maxX
      modifies this`curX, this`curY, this`step, this`parse, this`row, this`stride
      ensures Geometry() && startX <= curX < maxX && (row >= height ==> curY >= maxY)
      ensures Remaining() == old(Remaining())[1..]
    {
      hide Pass;
      hide Rest;
      hide Pixels;
      hide RowPixels;
      hide RowStart;
      ghost var rest := Pixels(startX + startY, line, Pass(row + stride, stride, height) + Rest(parse, height), width);
      AfterPixel(startX + startY, line, row, curX - startX, width, rest);
      curX := curX + 1;
      if curX >= maxX {
        NextRow();
        RemainingRows(startX + startY, line, row, stride, parse, height, width);
        assert Remaining() == rest;
      }
    }

    method DrawAt(idx: nat, symbol: byte)
      requires Shape() && Painted() && |emitted| < |ps| && ps[|emitted|] == idx
      modifies this`emitted, out, history
      ensures Painted() && emitted == old(emitted) + [symbol]
    {
      hide Paint;
      ghost var k := |emitted|;
      PaintAppend(image0, ps, palette, emitted, symbol);
      history[idx] := true;
      var c := palette[symbol];
      if c.a > 128 {
        out[idx] := c;
      }
      emitted := emitted + [symbol];
      AmongNext(ps, k);
    }

    /** Moves to the next row, starting the next pass as often as needed. */
    method NextRow()
      requires Geometry() && line > 0 && maxY == startY + RowStart(height, line)
      modifies this`curX, this`curY, this`step, this`parse, this`row, this`stride
      ensures Geometry() && curX == startX
      ensures Rows() == old(Pass(row + stride, stride, height) + Rest(parse, height))
      ensures row >= height ==> parse == 0 && curY >= maxY
    {
      curX := startX;
      RowAfter(row, stride, line);
      curY, row := curY + step, row + stride;
      RowEnds(row, height, line);
      while curY >= maxY && parse > 0
        invariant Geometry() && curX == startX && (curY >= maxY <==> row >= height)
        invariant Rows() == old(Pass(row + stride, stride, height) + Rest(parse, height))
        decreases parse
      {
        assert Rows() == Rest(parse, height);
        step := RowStart(Shl(1, parse), line);
        stride := Shl(1, parse);
        HalfStep(parse, line);
        curY := startY + step / 2;
        row := Pow2(parse - 1);
        parse := parse - 1;
        RowEnds(row, height, line);
      }
    }

    // ----- the dictionary -----

    ghost function St(): State
      reads this`dict, this`oldcode, this`codeSize, this`needClear
    {
      State(dict, oldcode, codeSize, needClear)
    }

    /** The tables hold the reference state's dictionary. */
    ghost predicate Dictionary(cs: nat)
      reads this`avail, this`dict, this`oldcode, this`codeSize, this`needClear, prefix, first, suffix
    {
      && Shape() && cs <= 12 && avail == |dict| && 0 < codeSize <= 13
      && Sound(cs, St()) && Links(prefix[..], first[..], suffix[..], dict, cs)
    }

    /** Emits a code's string, prefixes first. */
    method OutCode(code: nat, ghost cs: nat)
      requires Dictionary(cs) && Cursor() && code < |dict| && !Special(cs, code)
      modifies this`curX, this`curY, this`step, this`parse, this`row, this`stride, this`emitted, out, history
      ensures Dictionary(cs) && Cursor() && emitted == old(emitted) + dict[code]
      decreases code
    {
      hide Cursor;
      assert Linked(prefix[..], first[..], suffix[..], dict, cs, code);
      if prefix[code] >= 0 {
        OutCode(prefix[code], cs);
      }
      PutPixel(suffix[code]);
    }

    /** Single-symbol strings for the codes below the clear code. */
    method InitTables(cs: nat)
      requires Shape() && cs <= 12
      modifies this`avail, this`oldcode, this`codeSize, this`needClear, this`dict, prefix, first, suffix
      ensures Dictionary(cs) && St() == Initial(cs)
    {
      Pow2Mono(cs, 12);
      assert Pow2(12) == 4096;
      var clear := Shl(1, cs);
      ShlOne(cs);
      for i := 0 to clear
        invariant forall c :: 0 <= c < i ==> prefix[c] == -1 && first[c] == c % 256 == suffix[c]
      {
        prefix[i] := -1;
        first[i] := i % 256;
        suffix[i] := i % 256;
      }
      codeSize, avail, oldcode, needClear := cs + 1, clear + 2, -1, true;
      dict := Roots(cs);
      forall c | 0 <= c < |dict| && !Special(cs, c) ensures Linked(prefix[..], first[..], suffix[..], dict, cs, c) {
      }
    }

    /** Handles one code as the reference does. */
    method FeedCode(cs: nat, code: nat) returns (r: Verdict)
      requires Dictionary(cs) && Cursor()
      modifies this`avail, this`oldcode, this`codeSize, this`needClear, this`dict, prefix, first, suffix
      modifies this`curX, this`curY, this`step, this`parse, this`row, this`stride, this`emitted, out, history
      ensures Dictionary(cs) && Cursor()
      ensures match old(Feed(cs, St(), code))
              case Stop => r == Finished && emitted == old(emitted)
              case Error => r == Rejected && emitted == old(emitted)
              case More(st, str) => r == Continue && St() == st && emitted == old(emitted) + str
    {
      hide Cursor;
      hide NextSize;
      hide Links;
      var clear := Shl(1, cs);
      ShlOne(cs);
      if code == clear {
        Clear(cs);
        assert emitted == emitted + [];
        return Continue;
      } else if code == clear + 1 {
        return Finished;
      } else if code <= avail {
        r := FeedData(cs, code);
        return;
      }
      return Rejected;
    }

    /** Forgets all strings but the single symbols. */
    method Clear(cs: nat)
      requires Dictionary(cs)
      modifies this`avail, this`oldcode, this`codeSize, this`needClear, this`dict
      ensures Dictionary(cs) && St() == State(old(dict)[..Pow2(cs) + 2], -1, cs + 1, false)
    {
      var clear := Shl(1, cs);
      ShlOne(cs);
      LinksCut(prefix[..], first[..], suffix[..], dict, cs, clear + 2);
      codeSize, avail, oldcode, needClear := cs + 1, clear + 2, -1, false;
      dict := dict[..clear + 2];
    }

    method FeedData(cs: nat, code: nat) returns (r: Verdict)
      requires Dictionary(cs) && Cursor() && code <= avail && !Special(cs, code)
      modifies this`avail, this`oldcode, this`codeSize, this`needClear, this`dict, prefix, first, suffix
      modifies this`curX, this`curY, this`step, this`parse, this`row, this`stride, this`emitted, out, history
      ensures Dictionary(cs) && Cursor()
      ensures match old(Feed(cs, St(), code))
              case Stop => false
              case Error => r == Rejected && emitted == old(emitted)
              case More(st, str) => r == Continue && St() == st && emitted == old(emitted) + str
    {
      hide Cursor;
      hide NextSize;
      hide Links;
      hide Linked;
      hide Shape;
      hide Pow2;
      if needClear {
        return Rejected;
      }
      if oldcode >= 0 {
        if avail + 1 > TABLE_SIZE {
          return Rejected;
        }
        AddEntry(cs, code);
      } else if code == avail {
        return Rejected;
      }
      OutCode(code, cs);
      GrowSize();
      oldcode := code;
      return Continue;
    }

    /** Widens the codes when the next free one no longer fits. */
    method GrowSize()
      requires 0 < codeSize <= 13 && avail > 0
      modifies this`codeSize
      ensures codeSize == NextSize(avail, old(codeSize)) && 0 < codeSize <= 13
    {
      LowBound(avail, codeSize);
      if codeSize >= 12 {
        Pow2Mono(12, codeSize);
        assert Pow2(12) == 4096;
      }
      if Low(avail, codeSize) == 0 && avail <= 0x0FFF {
        codeSize := codeSize + 1;
      }
    }

    /** Enters the string of the previous code and the first symbol of the current one. The
        entry's own first symbol is already in place when the current code is the entry itself. */
    method AddEntry(cs: nat, code: nat)
      requires Dictionary(cs) && code <= avail < TABLE_SIZE && !Special(cs, code) && oldcode >= 0
      modifies this`avail, this`dict, prefix, first, suffix
      ensures Dictionary(cs)
      ensures var o := old(dict)[oldcode];
              dict == old(dict) + [o + [if code < |old(dict)| then old(dict)[code][0] else o[0]]]
    {
      ghost var p, f, s := prefix[..], first[..], suffix[..];
      assert Linked(p, f, s, dict, cs, oldcode);
      if code < |dict| {
        assert Linked(p, f, s, dict, cs, code);
      }
      var n := avail;
      avail := avail + 1;
      prefix[n] := oldcode;
      first[n] := first[oldcode];
      suffix[n] := first[code];
      LinksAdd(p, f, s, dict, cs, oldcode, suffix[n]);
      assert prefix[..] == p[n := oldcode] && first[..] == f[n := f[oldcode]] && suffix[..] == s[n := suffix[n]];
      dict := dict + [dict[oldcode] + [suffix[n]]];
    }

    // ----- the raster -----

    /** Decodes a whole raster: the image ends up painted, in arrival order, with exactly the
        symbols that the reference decoder produces, and the verdict is the reference's. */
    method ProcessRaster(data: seq<byte>, start: nat) returns (ok: bool)
      requires Shape() && Cursor() && emitted == [] && start <= |data|
      modifies this`avail, this`oldcode, this`codeSize, this`needClear, this`dict, prefix, first, suffix
      modifies this`curX, this`curY, this`step, this`parse, this`row, this`stride, this`emitted, out, history
      ensures Cursor()
      ensures var cs := ByteAt(data, start);
              Run(ok, emitted) == if cs > 12 then Run(false, []) else RasterSpec(data, After(data, start), cs)
    {
      hide Cursor;
      hide Decode;
      hide Links;
      hide Window;
      hide Payload;
      hide Shl;
      hide Shr;
      hide Low;
      hide Or;
      var cs: nat := ByteAt(data, start);
      var pos := After(data, start);
      if cs > 12 {
        return false;
      }
      InitTables(cs);
      ghost var pay := Payload(data, pos, 0);
      ghost var goal := RasterSpec(data, pos, cs);
      var len: nat, bits: nat, validBits: nat := 0, 0, 0;
      ghost var q: nat, m: nat := 0, 0;
      StartBuffer(data, pay, pos);
      while true
        invariant Dictionary(cs) && Cursor()
        invariant Buffered(data, pay, pos, len, bits, validBits, q, m)
        invariant Extends(goal, emitted, Decode(pay, cs, q, St()))
        decreases |pay| - m, validBits
      {
        if validBits < codeSize {
          if len == 0 {
            len := ByteAt(data, pos);
            PayloadBlock(data, pos);
            if len == 0 {
              DecodeAtEnd(pay, cs, q, St());
              return true;
            }
            pos := After(data, pos);
          }
          TakeByte(data, pay, pos, len, bits, validBits, q, m);
          bits := Or(bits, Shl(ByteAt(data, pos), validBits));
          pos, len, validBits, m := After(data, pos), len - 1, validBits + 8, m + 1;
        } else {
          WindowSplit(pay, q, codeSize, validBits);
          DecodeStep(pay, cs, q, St(), goal, emitted);
          var code := Low(bits, codeSize);
          bits, validBits, q := Shr(bits, codeSize), validBits - codeSize, q + codeSize;
          var r := FeedCode(cs, code);
          if r != Continue {
            return r == Finished;
          }
        }
      }
    }
  }

  /** The position after reading the byte at `pos`; reading at the end stays there. */
  function After(data: seq<byte>, pos: nat): nat {
    if pos < |data| then pos + 1 else pos
  }

  lemma InitialSound(cs: nat)
    requires cs <= 12
    ensures Sound(cs, Initial(cs))
  {
    Pow2Mono(cs, 12);
    assert Pow2(12) == 4096;
  }

  function RasterSpec(data: seq<byte>, pos: nat, cs: nat): Run
    requires pos <= |data| && cs <= 12
  {
    InitialSound(cs);
    Decode(Payload(data, pos, 0), cs, 0, Initial(cs))
  }

  /** The bit buffer holds the payload's bits from `q` up to the first byte, `m`, not yet
      fetched. */
  ghost predicate Buffered(data: seq<byte>, pay: seq<byte>, pos: nat, len: nat, bits: nat, validBits: nat, q: nat, m: nat) {
    && pos <= |data| && m <= |pay|
    && bits == Window(pay, q, validBits) && q + validBits == 8 * m
    && pay[m..] == Payload(data, pos, len)
  }

  /** What was emitted, and then the rest of the run, is the whole run. */
  ghost predicate Extends(goal: Run, emitted: seq<byte>, rest: Run) {
    goal == Run(rest.ok, emitted + rest.symbols)
  }

  lemma StartBuffer(data: seq<byte>, pay: seq<byte>, pos: nat)
    requires pos <= |data| && pay == Payload(data, pos, 0)
    ensures Buffered(data, pay, pos, 0, 0, 0, 0, 0)
  {
  }

  lemma PayloadBlock(data: seq<byte>, pos: nat)
    requires pos <= |data|
    ensures Payload(data, pos, 0) == if ByteAt(data, pos) == 0 then [] else Payload(data, After(data, pos), ByteAt(data, pos))
  {
  }

  lemma TakeByte(data: seq<byte>, pay: seq<byte>, pos: nat, len: nat, bits: nat, validBits: nat, q: nat, m: nat)
    requires Buffered(data, pay, pos, len, bits, validBits, q, m) && len > 0
    ensures Buffered(data, pay, After(data, pos), len - 1, Or(bits, Shl(ByteAt(data, pos), validBits)), validBits + 8, q, m + 1)
    ensures m < |pay|
  {
    hide Window;
    assert pay[m] == pay[m..][0] == ByteAt(data, pos);
    assert pay[m + 1..] == pay[m..][1..];
    WindowByte(pay, m);
    WindowBound(pay, q, validBits);
    WindowConcat(pay, q, validBits, 8);
    OrShiftedIsSum(bits, ByteAt(data, pos), validBits);
  }

  lemma DecodeAtEnd(pay: seq<byte>, cs: nat, q: nat, st: State)
    requires Sound(cs, st) && q + st.size > 8 * |pay| && st.size > 0
    ensures Decode(pay, cs, q, st) == Run(true, [])
  {
  }

  lemma DecodeStep(pay: seq<byte>, cs: nat, q: nat, st: State, goal: Run, emitted: seq<byte>)
    requires Sound(cs, st) && 0 < st.size && q + st.size <= 8 * |pay|
    requires Extends(goal, emitted, Decode(pay, cs, q, st))
    ensures match Feed(cs, st, Window(pay, q, st.size))
            case Stop => goal == Run(true, emitted)
            case Error => goal == Run(false, emitted)
            case More(st', str) => Sound(cs, st') && st'.size > 0 && Extends(goal, emitted + str, Decode(pay, cs, q + st.size, st'))
  {
    hide Window;
    FeedSound(cs, st, Window(pay, q, st.size));
    var r := Feed(cs, st, Window(pay, q, st.size));
    if r.More? {
      var rest := Decode(pay, cs, q + st.size, r.st);
      assert emitted + (r.str + rest.symbols) == emitted + r.str + rest.symbols;
    }
  }

  datatype Verdict = Continue | Finished | Rejected

  lemma AmongNext(ps: seq<nat>, k: nat)
    ensures forall q: nat :: Among(ps, k + 1, q) <==> Among(ps, k, q) || (k < |ps| && ps[k] == q)
  {
    if k < |ps| {
      assert Among(ps, k + 1, ps[k]);
    }
    forall q: nat | Among(ps, k, q) ensures Among(ps, k + 1, q) {
      var j :| 0 <= j < |ps| && j < k && ps[j] == q;
    }
  }

  lemma RowAfter(row: nat, stride: nat, line: nat)
    ensures RowStart(row + stride, line) == RowStart(row, line) + RowStart(stride, line)
  {
  }

  lemma RowEnds(row: nat, height: nat, line: nat)
    ensures line > 0 ==> (RowStart(row, line) >= RowStart(height, line) <==> row >= height)
  {
    if line > 0 {
      MulOrder(height, row, line);
    }
  }

  lemma HalfStep(parse: nat, line: nat)
    requires parse > 0
    ensures Shl(1, parse) == Pow2(parse) > 0 && RowStart(Shl(1, parse), line) / 2 == RowStart(Pow2(parse - 1), line)
  {
    ShlOne(parse);
    var m := Pow2(parse - 1);
    assert (2 * m) * line == 2 * (m * line);
  }

  /** Taking the first of the remaining positions. */
  lemma AfterPixel(base: nat, line: nat, row: nat, x: nat, w: nat, rest: seq<nat>)
    requires x < w
    ensures RowPixels(base, line, row, x, w) != []
    ensures (RowPixels(base, line, row, x, w) + rest)[1..] ==
            if x + 1 >= w then rest else RowPixels(base, line, row, x + 1, w) + rest
  {
    var tail := RowPixels(base, line, row, x + 1, w);
    assert RowPixels(base, line, row, x, w) == [PixelAt(base, line, row, x)] + tail;
    assert (RowPixels(base, line, row, x, w) + rest)[1..] == tail + rest;
    if x + 1 >= w {
      assert tail + rest == rest;
    }
  }

  /** The cursor's remaining positions are those of its remaining rows. */
  lemma RemainingRows(base: nat, line: nat, row: nat, stride: nat, parse: nat, h: nat, w: nat)
    requires stride > 0
    ensures row < h ==> Pixels(base, line, Pass(row, stride, h) + Rest(parse, h), w) ==
                        RowPixels(base, line, row, 0, w) + Pixels(base, line, Pass(row + stride, stride, h) + Rest(parse, h), w)
    ensures row >= h && parse == 0 ==> Pixels(base, line, Pass(row, stride, h) + Rest(parse, h), w) == []
  {
    var rows := Pass(row, stride, h) + Rest(parse, h);
    if row < h {
      assert rows[0] == row && rows[1..] == Pass(row + stride, stride, h) + Rest(parse, h);
    }
  }

  lemma PaintNothing(image: seq<Pixel>, ps: seq<nat>, palette: seq<Pixel>)
    requires |palette| == 256 && InImage(ps, |image|)
    ensures Paint(image, ps, palette, []) == image && forall q: nat :: !Among(ps, 0, q)
  {
  }

  ghost predicate InImage(ps: seq<nat>, size: nat) {
    forall i :: 0 <= i < |ps| ==> ps[i] < size
  }

  lemma PositionsInImage(x: nat, y: nat, line: nat, w: nat, h: nat, interlaced: bool, size: nat)
    requires x + w <= line && size >= RowStart(y + h, line)
    ensures InImage(Pixels(x + RowStart(y, line), line, RowOrder(interlaced, h), w), size)
  {
    var rows := RowOrder(interlaced, h);
    var base := x + RowStart(y, line);
    var ps := Pixels(base, line, rows, w);
    RowOrderIsPermutation(interlaced, h);
    forall i | 0 <= i < |ps| ensures ps[i] < size {
      var r, c := PixelFrom(base, line, rows, w, ps[i]);
      MulOrder(y + r + 1, y + h, line);
      assert (y + r + 1) * line == y * line + r * line + line;
    }
  }

  /** The cursor starts with every position still to visit. */
  lemma StartOfRows(base: nat, line: nat, interlaced: bool, h: nat, w: nat)
    ensures var stride, parse := FirstStride(interlaced), FirstParse(interlaced);
            Pixels(base, line, RowOrder(interlaced, h), w) ==
            if h == 0 || w == 0 then []
            else RowPixels(base, line, 0, 0, w) + Pixels(base, line, Pass(stride, stride, h) + Rest(parse, h), w)
  {
    var stride, parse := FirstStride(interlaced), FirstParse(interlaced);
    var rows := RowOrder(interlaced, h);
    RowOrderIsPasses(interlaced, h);
    if w == 0 {
      NoColumns(base, line, rows);
    } else if h > 0 {
      assert rows[1..] == Pass(stride, stride, h) + Rest(parse, h);
    }
  }

  lemma {:induction false} NoColumns(base: nat, line: nat, rows: seq<nat>)
    ensures Pixels(base, line, rows, 0) == []
  {
    if rows != [] {
      NoColumns(base, line, rows[1..]);
    }
  }
}
