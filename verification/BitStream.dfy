/** The bits of a byte buffer in DEFLATE order (section 3.1.1 of RFC 1951): least significant
    bit of each byte first, with zeros after the last byte. */
module BitStream {
  import opened Words

  function ByteAt(data: seq<byte>, k: nat): byte {
    if k < |data| then data[k] else 0
  }

  function BitAt(data: seq<byte>, i: nat): (b: nat)
    ensures b <= 1
  {
    if data == [] then 0
    else if i < 8 then Bit(data[0], i)
    else BitAt(data[1..], i - 8)
  }

  /** The `n` bits at `p` as a number, first bit least significant. */
  function Window(data: seq<byte>, p: nat, n: nat): nat
    decreases n, p
  {
    if n == 0 then 0 else BitAt(data, p) + 2 * Window(data, p + 1, n - 1)
  }

  /** The `n` bits at `p` as a number, first bit most significant (Huffman codes). */
  function Msb(data: seq<byte>, p: nat, n: nat): nat {
    if n == 0 then 0 else 2 * Msb(data, p, n - 1) + BitAt(data, p + n - 1)
  }

  /** Bit `j` of byte `k` is bit `8k + j` of the stream. */
  lemma {:induction false} BitInByte(data: seq<byte>, k: nat, j: nat)
    requires j < 8
    ensures BitAt(data, 8 * k + j) == Bit(ByteAt(data, k), j)
    decreases k
  {
    if data == [] {
      BitZero(j);
    } else if k > 0 {
      BitInByte(data[1..], k - 1, j);
      assert ByteAt(data[1..], k - 1) == ByteAt(data, k);
      assert 8 * k + j - 8 == 8 * (k - 1) + j;
    }
  }

  lemma {:induction false} BitPastEnd(data: seq<byte>, i: nat)
    requires i >= 8 * |data|
    ensures BitAt(data, i) == 0
  {
    if data != [] {
      BitPastEnd(data[1..], i - 8);
    }
  }

  lemma {:induction false} WindowBound(data: seq<byte>, p: nat, n: nat)
    ensures Window(data, p, n) < Pow2(n)
    decreases n
  {
    if n > 0 {
      WindowBound(data, p + 1, n - 1);
    }
  }

  lemma {:induction false} WindowConcat(data: seq<byte>, p: nat, a: nat, b: nat)
    ensures Window(data, p, a + b) == Window(data, p, a) + Shl(Window(data, p + a, b), a)
    decreases a
  {
    if a > 0 {
      WindowConcat(data, p + 1, a - 1, b);
      assert p + 1 + (a - 1) == p + a && a - 1 + b == a + b - 1;
    }
  }

  /** Masking a window keeps its first bits; shifting it drops them. */
  lemma WindowSplit(data: seq<byte>, p: nat, n: nat, m: nat)
    requires n <= m
    ensures Low(Window(data, p, m), n) == Window(data, p, n)
    ensures Shr(Window(data, p, m), n) == Window(data, p + n, m - n)
  {
    WindowConcat(data, p, n, m - n);
    WindowBound(data, p, n);
    SplitUnique(Window(data, p, n), Window(data, p + n, m - n), n);
  }

  lemma {:induction false} WindowBit(data: seq<byte>, p: nat, n: nat, i: nat)
    requires i < n
    ensures Bit(Window(data, p, n), i) == BitAt(data, p + i)
    decreases i
  {
    if i > 0 {
      WindowBit(data, p + 1, n - 1, i - 1);
      assert p + 1 + (i - 1) == p + i;
    }
    var w := Window(data, p + 1, n - 1);
    assert (BitAt(data, p) + 2 * w) / 2 == w && (BitAt(data, p) + 2 * w) % 2 == BitAt(data, p);
  }

  lemma {:induction false} WindowInByte(data: seq<byte>, k: nat, j: nat, n: nat)
    requires j + n <= 8
    ensures Window(data, 8 * k + j, n) == Low(Shr(ByteAt(data, k), j), n)
    decreases n
  {
    if n > 0 {
      var x: nat := ByteAt(data, k);
      WindowInByte(data, k, j + 1, n - 1);
      BitInByte(data, k, j);
      assert 8 * k + (j + 1) == 8 * k + j + 1;
      BitShr(x, j, 0);
      ShrStep(x, j);
    }
  }

  lemma {:induction false} ShrStep(x: nat, j: nat)
    ensures Shr(x, j + 1) == Shr(x, j) / 2
    decreases j
  {
    if j > 0 {
      ShrStep(x / 2, j - 1);
    }
  }

  /** Eight bits at a byte boundary are that byte. */
  lemma WindowByte(data: seq<byte>, k: nat)
    ensures Window(data, 8 * k, 8) == ByteAt(data, k)
  {
    var x: nat := ByteAt(data, k);
    WindowInByte(data, k, 0, 8);
    Pow2Values();
    LowBound(x, 8);
  }

  /** Whole bytes past the end are zero. */
  lemma {:induction false} WindowPastEnd(data: seq<byte>, p: nat, n: nat)
    requires p >= 8 * |data|
    ensures Window(data, p, n) == 0
    decreases n
  {
    if n > 0 {
      BitPastEnd(data, p);
      WindowPastEnd(data, p + 1, n - 1);
    }
  }

  /** Reading a window in the two bit orders differs by reversal. */
  lemma {:induction false} MsbIsRev(data: seq<byte>, p: nat, n: nat, m: nat)
    requires n <= m
    ensures Rev(Window(data, p, m), n) == Msb(data, p, n)
  {
    if n > 0 {
      MsbIsRev(data, p, n - 1, m);
      RevSnoc(Window(data, p, m), n - 1);
      WindowBit(data, p, m, n - 1);
    }
  }

  /** A longer code word starts with the shorter one read at the same place. */
  lemma {:induction false} MsbPrefix(data: seq<byte>, p: nat, n: nat, m: nat)
    requires n <= m
    ensures Shr(Msb(data, p, m), m - n) == Msb(data, p, n)
    decreases m
  {
    if n < m {
      MsbPrefix(data, p, n, m - 1);
      assert Msb(data, p, m) / 2 == Msb(data, p, m - 1);
    }
  }

  // ----- one bits left, the measure behind termination of the block loop -----

  /** The number of one bits at or after `p`. */
  function OnesFrom(data: seq<byte>, p: nat): nat
    decreases 8 * |data| - p
  {
    if p >= 8 * |data| then 0 else BitAt(data, p) + OnesFrom(data, p + 1)
  }

  /** Reading a nonzero window uses up at least one of the remaining one bits. */
  lemma {:induction false} OnesConsumed(data: seq<byte>, p: nat, n: nat)
    ensures OnesFrom(data, p + n) <= OnesFrom(data, p)
    ensures Window(data, p, n) != 0 ==> OnesFrom(data, p + n) < OnesFrom(data, p)
    decreases n
  {
    if n > 0 {
      OnesConsumed(data, p + 1, n - 1);
      if p >= 8 * |data| {
        WindowPastEnd(data, p, n);
      }
    }
  }
}
