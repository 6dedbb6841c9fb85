/** Reading a given byte string bit by bit, for the worked examples. */
module Tape {
  import opened Words
  import opened BitStream

  /** One bit put below a word. */
  lemma LowBit(b: nat, x: nat)
    requires b <= 1
    ensures Bit(b + 2 * x, 0) == b && forall j: nat :: Bit(b + 2 * x, j + 1) == Bit(x, j)
  {
  }

  /** The bits of byte `k`, least significant first. */
  lemma ByteBits(data: seq<byte>, k: nat, b0: nat, b1: nat, b2: nat, b3: nat, b4: nat, b5: nat, b6: nat, b7: nat)
    requires b0 <= 1 && b1 <= 1 && b2 <= 1 && b3 <= 1 && b4 <= 1 && b5 <= 1 && b6 <= 1 && b7 <= 1
    requires k < |data| && data[k] as nat == b0 + 2 * (b1 + 2 * (b2 + 2 * (b3 + 2 * (b4 + 2 * (b5 + 2 * (b6 + 2 * b7))))))
    ensures BitAt(data, 8 * k) == b0 && BitAt(data, 8 * k + 1) == b1 && BitAt(data, 8 * k + 2) == b2
    ensures BitAt(data, 8 * k + 3) == b3 && BitAt(data, 8 * k + 4) == b4 && BitAt(data, 8 * k + 5) == b5
    ensures BitAt(data, 8 * k + 6) == b6 && BitAt(data, 8 * k + 7) == b7
  {
    hide BitAt;
    var x6 := b6 + 2 * b7;
    var x5 := b5 + 2 * x6;
    var x4 := b4 + 2 * x5;
    var x3 := b3 + 2 * x4;
    var x2 := b2 + 2 * x3;
    var x1 := b1 + 2 * x2;
    assert Bit(b7, 0) == b7;
    LowBit(b6, b7);
    LowBit(b5, x6);
    LowBit(b4, x5);
    LowBit(b3, x4);
    LowBit(b2, x3);
    LowBit(b1, x2);
    LowBit(b0, x1);
    hide Bit;
    var x: nat := data[k] as nat;
    assert x == b0 + 2 * x1;
    assert Bit(x, 1) == Bit(x1, 0) && Bit(x, 2) == Bit(x1, 1) == Bit(x2, 0);
    assert Bit(x, 3) == Bit(x1, 2) == Bit(x2, 1) == Bit(x3, 0);
    assert Bit(x, 4) == Bit(x1, 3) == Bit(x2, 2) == Bit(x3, 1) == Bit(x4, 0);
    assert Bit(x, 5) == Bit(x1, 4) == Bit(x2, 3) == Bit(x3, 2) == Bit(x4, 1) == Bit(x5, 0);
    assert Bit(x, 6) == Bit(x1, 5) == Bit(x2, 4) == Bit(x3, 3) == Bit(x4, 2) == Bit(x5, 1) == Bit(x6, 0);
    assert Bit(x, 7) == Bit(x1, 6) == Bit(x2, 5) == Bit(x3, 4) == Bit(x4, 3) == Bit(x5, 2) == Bit(x6, 1) == Bit(b7, 0);
    BitInByte(data, k, 0);
    BitInByte(data, k, 1);
    BitInByte(data, k, 2);
    BitInByte(data, k, 3);
    BitInByte(data, k, 4);
    BitInByte(data, k, 5);
    BitInByte(data, k, 6);
    BitInByte(data, k, 7);
  }

  /** Short windows from their bits. */
  lemma Windows(data: seq<byte>, p: nat)
    ensures Window(data, p, 0) == 0
    ensures Window(data, p, 1) == BitAt(data, p)
    ensures Window(data, p, 2) == BitAt(data, p) + 2 * BitAt(data, p + 1)
    ensures Window(data, p, 3) == BitAt(data, p) + 2 * BitAt(data, p + 1) + 4 * BitAt(data, p + 2)
    ensures Window(data, p, 4) == BitAt(data, p) + 2 * BitAt(data, p + 1) + 4 * BitAt(data, p + 2) + 8 * BitAt(data, p + 3)
  {
    hide BitAt;
    assert Window(data, p + 1, 0) == 0 && Window(data, p + 2, 0) == 0 && Window(data, p + 3, 0) == 0 && Window(data, p + 4, 0) == 0;
    assert Window(data, p + 3, 1) == BitAt(data, p + 3) && Window(data, p + 2, 1) == BitAt(data, p + 2);
    assert Window(data, p + 1, 1) == BitAt(data, p + 1);
    assert Window(data, p + 2, 2) == BitAt(data, p + 2) + 2 * BitAt(data, p + 3);
    assert Window(data, p + 1, 2) == BitAt(data, p + 1) + 2 * BitAt(data, p + 2);
    assert Window(data, p + 1, 3) == BitAt(data, p + 1) + 2 * (BitAt(data, p + 2) + 2 * BitAt(data, p + 3));
  }

  /** A window in two parts. */
  lemma WindowJoin(data: seq<byte>, p: nat, n: nat)
    ensures Window(data, p, 4 + n) == Window(data, p, 4) + 16 * Window(data, p + 4, n)
  {
    WindowConcat(data, p, 4, n);
    hide Window;
    Times16(Window(data, p + 4, n));
  }

  lemma Times16(x: nat)
    ensures Shl(x, 4) == 16 * x
  {
    assert Shl(x, 1) == 2 * x && Shl(x, 2) == 4 * x && Shl(x, 3) == 8 * x;
  }

  /** Codes from their bits, first bit most significant. */
  lemma Codes(data: seq<byte>, p: nat)
    ensures Msb(data, p, 1) == BitAt(data, p)
    ensures Msb(data, p, 5) == 16 * BitAt(data, p) + 8 * BitAt(data, p + 1) + 4 * BitAt(data, p + 2) + 2 * BitAt(data, p + 3)
                               + BitAt(data, p + 4)
    ensures Msb(data, p, 7) == 4 * Msb(data, p, 5) + 2 * BitAt(data, p + 5) + BitAt(data, p + 6)
    ensures Msb(data, p, 8) == 2 * Msb(data, p, 7) + BitAt(data, p + 7)
  {
    hide BitAt;
    assert Msb(data, p, 0) == 0;
    assert Msb(data, p, 1) == BitAt(data, p);
    assert Msb(data, p, 2) == 2 * Msb(data, p, 1) + BitAt(data, p + 1);
    assert Msb(data, p, 3) == 2 * Msb(data, p, 2) + BitAt(data, p + 2);
    assert Msb(data, p, 4) == 2 * Msb(data, p, 3) + BitAt(data, p + 3);
    assert Msb(data, p, 5) == 2 * Msb(data, p, 4) + BitAt(data, p + 4);
    assert Msb(data, p, 6) == 2 * Msb(data, p, 5) + BitAt(data, p + 5);
    assert Msb(data, p, 7) == 2 * Msb(data, p, 6) + BitAt(data, p + 6);
  }
}
