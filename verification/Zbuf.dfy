/** The inflater's state, its bit reader and its Huffman symbol reader. */
module ZStream {
  import opened Words
  import opened BitStream
  import opened Canonical
  import opened ZHuffman
  import opened DeflateFormat
  import opened Metering

  /** How decoding ends: `Corrupt` for a rejected input, `NoRoom` for an exhausted output
      buffer or a failed allocation. */
  datatype Status = Ok | Corrupt | NoRoom

  const UINT_MAX: nat := 0xffff_ffff

  /** How far a capacity can be doubled by an allocator whose largest block is `memory`. */
  function Grown(limit: nat, memory: nat): (r: nat)
    ensures r >= limit && (limit <= UINT_MAX ==> r <= UINT_MAX)
    decreases UINT_MAX - limit
  {
    if 0 < limit <= UINT_MAX / 2 && 2 * limit <= memory then Grown(2 * limit, memory) else limit
  }

  class Zbuf {
    const data: seq<byte>
    var pos: nat
    var numBits: int
    var codeBuffer: nat
    var hitZeofOnce: bool

    var buf: array<byte>
    var zout: nat
    const expandable: bool
    /** The largest block the allocator will give. */
    const memory: nat

    const zLength: Huffman
    const zDistance: Huffman

    /** How many bits of the zero-extended input have been handed out. */
    ghost var p: nat

    /** How many bytes of the zero-extended input have entered the bit buffer. */
    ghost var fetched: nat

    /** How many of those were zeros supplied because the input had ended, not counting the two
        that `hitZeofOnce` stands for; and how many before the present block's contents. */
    ghost var zeros: nat
    ghost var zerosBefore: nat

    constructor (data: seq<byte>, buf: array<byte>, expandable: bool, memory: nat)
      ensures Reader() && pos == 0 && p == 0 && numBits == 0 && !hitZeofOnce
      ensures this.data == data && this.buf == buf && zout == 0
      ensures this.expandable == expandable && this.memory == memory
      ensures zLength != zDistance && zLength.Shape() && zDistance.Shape()
      ensures fresh(zLength) && fresh(zDistance) && fresh(zLength.Tables()) && fresh(zDistance.Tables())
      ensures zLength.Tables() !! zDistance.Tables()
    {
      this.data, this.buf, this.expandable, this.memory := data, buf, expandable, memory;
      pos, numBits, codeBuffer, hitZeofOnce, zout := 0, 0, 0, false, 0;
      p, fetched, zeros, zerosBefore := 0, 0, 0, 0;
      zLength := new Huffman();
      zDistance := new Huffman();
    }

    /** The bit buffer holds the next `numBits` bits of the zero-extended input; bytes are
        taken in order, and padding begins only once the real bytes are gone. */
    ghost predicate Reader()
      reads this`pos, this`numBits, this`codeBuffer, this`hitZeofOnce, this`p, this`fetched, this`zeros
      reads this`zerosBefore
    {
      && pos <= |data| && 0 <= numBits <= 32
      && codeBuffer == Window(data, p, numBits)
      && p + numBits == 8 * fetched
      && fetched == pos + zeros + (if hitZeofOnce then 2 else 0)
      && (pos < |data| ==> zeros == 0 && !hitZeofOnce)
      && zerosBefore <= zeros
    }

    /** The cursor has passed the input and the zeros supplied for it: the bits it handed out
        last came from the 16 implicit ones. */
    ghost predicate Starved()
      reads this`p, this`zeros
    {
      p > 8 * (|data| + zeros)
    }

    ghost function Now(): Meter
      reads this`p, this`fetched, this`hitZeofOnce
    {
      Meter(p, fetched, hitZeofOnce)
    }

    ghost predicate Valid()
      reads this
    {
      && Reader()
      && zout <= buf.Length <= UINT_MAX
      && (expandable ==> buf.Length > 0)
      && zLength.Shape() && zDistance.Shape() && zLength != zDistance
      && zLength.Tables() !! zDistance.Tables()
      && buf !in zLength.Tables() && buf !in zDistance.Tables()
    }

    /** The bytes produced so far. */
    ghost function Out(): seq<byte>
      requires zout <= buf.Length
      reads this, buf
    {
      buf[..zout]
    }

    method Get8() returns (b: byte)
      requires pos <= |data|
      modifies this`pos
      ensures pos == (if old(pos) < |data| then old(pos) + 1 else old(pos))
      ensures b == ByteAt(data, old(pos))
    {
      if pos >= |data| {
        b := 0;
      } else {
        b := data[pos];
        pos := pos + 1;
      }
    }

    /** Tops the bit buffer up to at least 25 bits. Its overflow guard never fires. */
    method FillBits()
      requires Reader() && numBits <= 24
      modifies this`pos, this`numBits, this`codeBuffer, this`fetched, this`zeros
      ensures Reader() && 25 <= numBits <= 32 && Now() == Filled(old(Now()))
    {
      var more := true;
      while more
        invariant Reader() && (more <==> numBits <= 24)
        decreases 40 - numBits
      {
        WindowBound(data, p, numBits);
        ShlPow2(0, numBits);
        if codeBuffer >= Shl(1, numBits) {
          assert false;
        }
        FillByte();
        more := numBits <= 24;
      }
    }

    method FillByte()
      requires Reader() && numBits <= 24
      modifies this`pos, this`numBits, this`codeBuffer, this`fetched, this`zeros
      ensures Reader() && numBits == old(numBits) + 8
    {
      NextByte(data, p, numBits, pos, fetched);
      zeros := if pos < |data| then zeros else zeros + 1;
      var b := Get8();
      codeBuffer := Or(codeBuffer, Shl(b, numBits));
      numBits, fetched := numBits + 8, fetched + 1;
    }

    /** Returns the next `n` bits, first bit least significant. */
    method Receive(n: nat) returns (k: nat)
      requires Reader() && n <= 24
      modifies this`pos, this`numBits, this`codeBuffer, this`p, this`fetched, this`zeros
      ensures Reader()
      ensures k == Window(data, old(p), n) && p == old(p) + n
      ensures Now() == Take(old(Now()), n)
    {
      if numBits < n {
        FillBits();
      }
      WindowSplit(data, p, n, numBits);
      k := Low(codeBuffer, n);
      Consume(n);
    }

    method Consume(n: nat)
      requires Reader() && n <= numBits
      modifies this`numBits, this`codeBuffer, this`p
      ensures Reader() && p == old(p) + n && numBits == old(numBits) - n
    {
      WindowSplit(data, p, n, numBits);
      codeBuffer := Shr(codeBuffer, n);
      numBits := numBits - n;
      p := p + n;
    }

    /** Decodes the symbol spelled at the cursor. A negative result means that no symbol of
        the code is spelled there, or that the cursor is past the input and its supplied zeros. */
    method Decode(z: Huffman) returns (r: int)
      requires Reader() && z.Built()
      modifies this`pos, this`numBits, this`codeBuffer, this`hitZeofOnce, this`p, this`fetched, this`zeros
      ensures Reader()
      ensures r >= 0 ==> !old(Starved()) && Spelled(data, old(p), z.lens, r) && p == old(p) + z.lens[r]
      ensures r >= 0 ==> Symbol(|data|, old(Now()), z.lens[r]) == Supplied(Now())
      ensures r < 0 ==> p == old(p)
      ensures r < 0 ==> || (Starved() && Topped(|data|, old(Now())).Short?)
                        || forall s: nat :: !Spelled(data, p, z.lens, s)
    {
      hide Topped;
      hide Reader;
      var ok := Refill();
      if !ok {
        return -1;
      }
      r := DecodeBuffered(z);
    }

    /** The same with at least 16 bits in the buffer: by the table, or else by the slow path. */
    method DecodeBuffered(z: Huffman) returns (r: int)
      requires Reader() && z.Built() && numBits >= 16
      modifies this`numBits, this`codeBuffer, this`p
      ensures Reader()
      ensures r >= 0 ==> Spelled(data, old(p), z.lens, r) && p == old(p) + z.lens[r]
      ensures r < 0 ==> p == old(p) && forall s: nat :: !Spelled(data, p, z.lens, s)
    {
      hide Window;
      hide Pow2;
      var w := Low(codeBuffer, FAST_BITS);
      WindowSplit(data, p, FAST_BITS, numBits);
      FastIndex(data, p, z.lens);
      var b := z.fast[w];
      if b != 0 {
        var s := Shr(b, 9);
        SplitEntry(b);
        Consume(s);
        return Low(b, 9);
      }
      r := DecodeSlow(z);
    }

    /** Makes 16 bits available, padding once at the end of input; refuses exactly when starved. */
    method Refill() returns (ok: bool)
      requires Reader()
      modifies this`pos, this`numBits, this`codeBuffer, this`hitZeofOnce, this`fetched, this`zeros
      ensures Reader()
      ensures ok ==> numBits >= 16
      ensures ok <==> !old(Starved())
      ensures !ok ==> Starved()
      ensures Topped(|data|, old(Now())) == if ok then Supplied(Now()) else Short
    {
      if numBits < 16 {
        if pos >= |data| {
          if !hitZeofOnce {
            hitZeofOnce := true;
            PadWindow(data, p, numBits, 16);
            numBits, fetched := numBits + 16, fetched + 2;
          } else {
            return false;
          }
        } else {
          FillBits();
        }
      }
      return true;
    }

    /** The next byte when the bit buffer is empty. */
    method GetAligned() returns (b: byte)
      requires Reader() && numBits == 0
      modifies this`pos, this`p, this`fetched, this`zeros
      ensures Reader() && b == Window(data, old(p), 8) && p == old(p) + 8
      ensures pos == if old(pos) < |data| then old(pos) + 1 else old(pos)
    {
      WindowByte(data, fetched);
      zeros := if pos < |data| then zeros else zeros + 1;
      b := Get8();
      p, fetched := p + 8, fetched + 1;
    }

    // ----- output -----

    /** The most output there is room for. */
    ghost function Room(): nat
      reads this`buf
    {
      if expandable then Grown(buf.Length, memory) else buf.Length
    }

    /** Makes room for `n` more bytes by doubling, keeping everything written. Fails exactly
        beyond what there is room for; a buffer that is not expandable never grows. */
    method ZExpand(n: nat) returns (st: Status)
      requires Valid()
      modifies this`buf
      ensures Valid() && st != Corrupt && Room() == old(Room())
      ensures zout + n > old(buf.Length) ==> (st.Ok? <==> zout + n <= Room())
      ensures st.Ok? ==> expandable && fresh(buf) && zout + n <= buf.Length && Out() == old(Out())
      ensures !st.Ok? ==> buf == old(buf)
    {
      if !expandable {
        return NoRoom;
      }
      var limit := buf.Length;
      if UINT_MAX - zout < n {
        return NoRoom;
      }
      while zout + n > limit
        invariant 0 < buf.Length <= limit <= UINT_MAX
        invariant || (Grown(limit, memory) == Grown(buf.Length, memory) && (limit <= memory || limit == buf.Length))
                  || (zout + n > Grown(buf.Length, memory) && limit > memory)
        decreases UINT_MAX - limit
      {
        if limit > UINT_MAX / 2 {
          return NoRoom;
        }
        limit := limit * 2;
      }
      if limit > memory {
        return NoRoom;
      }
      var q := new byte[limit](_ => 0);
      forall i | 0 <= i < buf.Length {
        q[i] := buf[i];
      }
      buf := q;
      return Ok;
    }

    method PutLiteral(b: byte) returns (st: Status)
      requires Valid()
      modifies this`buf, this`zout, buf
      ensures Valid() && st != Corrupt && (buf == old(buf) || (expandable && fresh(buf)))
      ensures st.Ok? ==> Out() == Emit(old(Out()), Literal(b))
      ensures Room() == old(Room()) && (st.Ok? <==> old(zout) + 1 <= Room())
      ensures !st.Ok? ==> zout == old(zout) && buf == old(buf)
    {
      if zout >= buf.Length {
        st := ZExpand(1);
        if !st.Ok? {
          return;
        }
      }
      buf[zout] := b;
      zout := zout + 1;
      return Ok;
    }

    method PutMatch(len: nat, dist: nat) returns (st: Status)
      requires Valid() && 1 <= dist <= zout
      modifies this`buf, this`zout, buf
      ensures Valid() && st != Corrupt && (buf == old(buf) || (expandable && fresh(buf)))
      ensures st.Ok? ==> Out() == Emit(old(Out()), Match(len, dist))
      ensures Room() == old(Room()) && (st.Ok? <==> old(zout) + len <= Room())
      ensures !st.Ok? ==> zout == old(zout) && buf == old(buf)
    {
      if len > buf.Length - zout {
        st := ZExpand(len);
        if !st.Ok? {
          return;
        }
      }
      CopyMatch(len, dist);
      return Ok;
    }

    /** The copy loop, with its run of one byte for distance 1. */
    method CopyMatch(len: nat, dist: nat)
      requires Valid() && 1 <= dist <= zout && zout + len <= buf.Length
      modifies this`zout, buf
      ensures Valid() && Out() == CopyFrom(old(Out()), dist, len)
    {
      hide Window;
      hide Huffman.Shape;
      hide Huffman.Tables;
      var left := len;
      ghost var goal := CopyFrom(Out(), dist, len);
      if dist == 1 {
        var v := buf[zout - 1];
        while left > 0
          invariant Valid() && 1 <= zout && zout + left <= buf.Length && buf[zout - 1] == v
          invariant CopyFrom(Out(), 1, left) == goal
        {
          PutByte(v);
          left := left - 1;
        }
      } else {
        while left > 0
          invariant Valid() && dist <= zout && zout + left <= buf.Length
          invariant CopyFrom(Out(), dist, left) == goal
        {
          PutByte(buf[zout - dist]);
          left := left - 1;
        }
      }
    }

    /** Copies `len` input bytes straight to the output. */
    method CopyInput(len: nat)
      requires Valid() && numBits == 0 && pos + len <= |data| && zout + len <= buf.Length
      modifies this`pos, this`p, this`fetched, this`zout, buf
      ensures Valid() && p == old(p) + 8 * len && pos == old(pos) + len
      ensures Out() == old(Out()) + data[old(pos)..pos]
    {
      forall i | 0 <= i < len {
        buf[zout + i] := data[pos + i];
      }
      pos, zout := pos + len, zout + len;
      p, fetched := p + 8 * len, fetched + len;
    }

    method PutByte(b: byte)
      requires Valid() && zout < buf.Length
      modifies this`zout, buf
      ensures Valid() && zout == old(zout) + 1 && Out() == old(Out()) + [b]
    {
      buf[zout] := b;
      zout := zout + 1;
    }

    /** The left-aligned search for codes longer than 9 bits, after the table has no answer.
        Its two consistency checks never fire. */
    method DecodeSlow(z: Huffman) returns (r: int)
      requires Reader() && z.Built() && numBits >= 16
      requires forall s: nat :: Spelled(data, p, z.lens, s) ==> z.lens[s] > FAST_BITS
      modifies this`numBits, this`codeBuffer, this`p
      ensures Reader()
      ensures r >= 0 ==> Spelled(data, old(p), z.lens, r) && p == old(p) + z.lens[r]
      ensures r < 0 ==> p == old(p) && forall s: nat :: !Spelled(data, p, z.lens, s)
    {
      var k := BitReverse(codeBuffer, 16);
      BitReverseIsRev(codeBuffer, 16);
      RevBound(codeBuffer, 16);
      Pow2Values();
      hide Pow2;
      hide Rev;
      hide Window;
      hide BitReverse;
      hide Code;
      hide Rank;
      ghost var lens := z.lens;
      assert Aligned(data, p, k) by { AlignedWindow(data, p, numBits); }
      NoShortSymbol(data, p, lens, k);
      var s := FAST_BITS + 1;
      while k >= z.maxcode[s]
        invariant 10 <= s <= 16 && Limit(lens, s - 1) <= k
        decreases 16 - s
      {
        s := s + 1;
      }
      if s >= 16 {
        NoSymbol(data, p, lens, k);
        return -1;
      }
      ghost var t := Locate(lens, k, s);
      PositionBound(lens, t);
      assert Spelled(data, p, lens, t);
      var b := Shr(k, 16 - s) - z.firstcode[s] + z.firstsymbol[s];
      assert b == Position(lens, t);
      if b >= MAX_SYMBOLS {
        assert false;
      }
      if z.size[b] != s {
        assert false;
      }
      Consume(s);
      return z.value[b];
    }
  }

  /** The byte fetched next continues the window. */
  lemma NextByte(data: seq<byte>, p: nat, n: nat, pos: nat, fetched: nat)
    requires p + n == 8 * fetched && pos <= |data| && pos <= fetched && (pos < |data| ==> fetched == pos)
    ensures Or(Window(data, p, n), Shl(ByteAt(data, pos), n)) == Window(data, p, n + 8)
  {
    WindowByte(data, fetched);
    WindowBound(data, p, n);
    WindowConcat(data, p, n, 8);
    OrShiftedIsSum(Window(data, p, n), ByteAt(data, pos), n);
  }

  /** Past the end, a longer window has the same value. */
  lemma PadWindow(data: seq<byte>, p: nat, n: nat, extra: nat)
    requires p + n >= 8 * |data|
    ensures Window(data, p, n + extra) == Window(data, p, n)
  {
    WindowConcat(data, p, n, extra);
    WindowPastEnd(data, p + n, extra);
    ShlAdd(0, 0, n);
  }

  lemma SplitEntry(b: nat)
    ensures Shr(b, 9) == b / 512 && Low(b, 9) == b % 512
  {
    var q := b / 512;
    assert Shl(q, 1) == 2 * q && Shl(q, 2) == 4 * q && Shl(q, 3) == 8 * q;
    assert Shl(q, 4) == 16 * q && Shl(q, 5) == 32 * q && Shl(q, 6) == 64 * q;
    assert Shl(q, 7) == 128 * q && Shl(q, 8) == 256 * q && Shl(q, 9) == 512 * q;
    Pow2Values();
    SplitUnique(b % 512, q, 9);
  }

  /** A short symbol is spelled at `p` exactly when the 9-bit index starts with its code. */
  lemma FastIndex(data: seq<byte>, p: nat, lens: seq<nat>)
    ensures forall s: nat :: s < |lens| && lens[s] <= FAST_BITS ==>
                               (FastMatch(lens, s, Window(data, p, FAST_BITS)) <==> Spelled(data, p, lens, s))
    ensures Window(data, p, FAST_BITS) < FAST_SIZE
  {
    WindowBound(data, p, FAST_BITS);
    Pow2Values();
    forall s: nat | s < |lens| && lens[s] <= FAST_BITS
      ensures FastMatch(lens, s, Window(data, p, FAST_BITS)) <==> Spelled(data, p, lens, s)
    {
      MsbIsRev(data, p, lens[s], FAST_BITS);
    }
  }

  /** `k` is the 16-bit window at `p`, left-aligned: its top `l` bits are the first `l` bits. */
  ghost predicate Aligned(data: seq<byte>, p: nat, k: nat) {
    forall l: nat :: l <= 16 ==> Shr(k, 16 - l) == Msb(data, p, l)
  }

  lemma AlignedWindow(data: seq<byte>, p: nat, n: nat)
    requires n >= 16
    ensures Aligned(data, p, Rev(Window(data, p, n), 16))
  {
    forall l: nat | l <= 16 ensures Shr(Rev(Window(data, p, n), 16), 16 - l) == Msb(data, p, l) {
      RevTop(Window(data, p, n), l, 16 - l);
      MsbIsRev(data, p, l, n);
    }
  }

  lemma NoShortSymbol(data: seq<byte>, p: nat, lens: seq<nat>, k: nat)
    requires Aligned(data, p, k)
    requires forall s: nat :: Spelled(data, p, lens, s) ==> lens[s] > FAST_BITS
    ensures Limit(lens, FAST_BITS) <= k
  {
    if k < Limit(lens, FAST_BITS) {
      var s := LocateBelow(lens, k, FAST_BITS);
      assert false;
    }
  }

  lemma NoSymbol(data: seq<byte>, p: nat, lens: seq<nat>, k: nat)
    requires Aligned(data, p, k) && Lengths(lens) && Limit(lens, 15) <= k
    ensures forall s: nat :: !Spelled(data, p, lens, s)
  {
    forall s: nat | Spelled(data, p, lens, s) ensures false {
      BelowLimit(lens, k, s);
      LimitMonotone(lens, lens[s], 15);
    }
  }
}
