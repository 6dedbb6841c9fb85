/** The 32-bit message header: magic, version, profile switch, and two 12-bit fields that spill
    into extension bytes, followed by sequence, IV, MAC and payload. */
module HeaderCodec {
  import opened Words

  const FIXED_SIZE: nat := 4
  const INT_MAX: int := 0x7fff_ffff

  datatype Option<+T> = None | Some(value: T)

  /** A parsed header. Lengths are signed 32-bit values. */
  datatype Header = Header(
    profile: nat, payloadLength: int, keyIndex: int,
    sequenceLength: int, ivLength: int, macLength: int,
    ivOffset: int, macOffset: int, payloadOffset: int, totalLength: int)

  /** Two's complement 32-bit wrap-around. */
  function Wrap32(x: int): int {
    var m := x % 0x1_0000_0000;
    if m > INT_MAX then m - 0x1_0000_0000 else m
  }

  // ----- variable-length fields -----

  /** How many extension bytes a 12-bit base announces: its leading ones. Four or more are
      rejected. */
  function Announced(base: nat): nat {
    if base < 0x800 then 0
    else if base < 0xC00 then 1
    else if base < 0xE00 then 2
    else if base < 0xF00 then 3
    else 4
  }

  /** The bits of the base that belong to the value. */
  function BaseBits(base: nat, extensions: nat): nat {
    if extensions == 0 then base % 0x800
    else if extensions == 1 then base % 0x400
    else if extensions == 2 then base % 0x200
    else base % 0x100
  }

  function ReadExtensions(data: seq<byte>, offset: nat, n: nat, value: int): Option<int>
    decreases n
  {
    if n == 0 then Some(value)
    else if offset >= |data| then None
    else ReadExtensions(data, offset + 1, n - 1, Wrap32(value * 256 + data[offset]))
  }

  datatype Field = Field(value: int, next: nat)

  function DecodeField(base: nat, data: seq<byte>, offset: nat): Option<Field> {
    var n := Announced(base);
    if n > 3 then None
    else
      match ReadExtensions(data, offset, n, BaseBits(base, n))
      case None => None
      case Some(v) => Some(Field(v, offset + n))
  }

  /** The loops of the decoder: shift left while the top bit is set, then take the extension
      bytes. */
  method DecodeVariableLength12(base: nat, data: seq<byte>, offset: nat) returns (r: Option<Field>)
    requires base < 0x1000
    ensures r == DecodeField(base, data, offset)
  {
    var extensions := 0;
    var temp := base;
    while temp / 0x800 % 2 != 0
      invariant 0 <= extensions <= 3 && extensions <= Announced(base)
      invariant temp == (if extensions == 0 then base
                         else if extensions == 1 then 2 * base
                         else if extensions == 2 then 4 * base
                         else 8 * base)
      invariant temp < 0x10000
      decreases 4 - extensions
    {
      extensions := extensions + 1;
      temp := temp * 2 % 0x10000;
      if extensions > 3 {
        return None;
      }
    }
    assert extensions == Announced(base);
    if extensions == 0 {
      return Some(Field(base, offset));
    }
    var value: int := BaseBits(base, extensions);
    var at := offset;
    for i := 0 to extensions
      invariant at == offset + i
      invariant ReadExtensions(data, at, extensions - i, value) == ReadExtensions(data, offset, extensions, BaseBits(base, extensions))
    {
      if at >= |data| {
        return None;
      }
      value := Wrap32(value * 256 + data[at]);
      at := at + 1;
    }
    return Some(Field(value, at));
  }

  datatype Encoded = Encoded(base: nat, extensions: seq<byte>)

  /** The shortest encoding of a value; values of 2^25 and more are rejected. */
  function EncodeField(value: int): Option<Encoded> {
    if value < 0x800 then Some(Encoded(value % 0x10000, []))
    else if value < 0x4_0000 then Some(Encoded(Or(0x800, value / 256 % 0x400), [(value % 256) as byte]))
    else if value < 0x200_0000 then
      Some(Encoded(Or(0xC00, value / 0x1_0000 % 0x200), [(value / 256 % 256) as byte, (value % 256) as byte]))
    else None
  }

  function ExtensionCount(value: int): Option<nat> {
    if value < 0x800 then Some(0)
    else if value < 0x4_0000 then Some(1)
    else if value < 0x200_0000 then Some(2)
    else None
  }

  lemma OrHighBits(x: nat)
    ensures x < 0x400 ==> Or(0x800, x) == 0x800 + x
    ensures x < 0x200 ==> Or(0xC00, x) == 0xC00 + x
  {
    OrCommutes(0x800, x);
    OrCommutes(0xC00, x);
    if x < 0x400 {
      assert Pow2(10) == 0x400 && Shl(2, 10) == 0x800;
      OrShiftedIsSum(x, 2, 10);
    }
    if x < 0x200 {
      assert Pow2(9) == 0x200 && Shl(6, 9) == 0xC00;
      OrShiftedIsSum(x, 6, 9);
    }
  }

  lemma {:induction false} OrCommutes(x: nat, y: nat)
    ensures Or(x, y) == Or(y, x)
  {
    if x != 0 && y != 0 {
      OrCommutes(x / 2, y / 2);
    }
  }

  /** Decoding an encoded field gives back the value and moves past its extension bytes. */
  lemma FieldRoundTrip(value: int, data: seq<byte>, offset: nat)
    requires 0 <= value < 0x200_0000
    requires var e := EncodeField(value).value;
             offset + |e.extensions| <= |data| && data[offset..offset + |e.extensions|] == e.extensions
    ensures var e := EncodeField(value).value;
            e.base < 0x1000 && DecodeField(e.base, data, offset) == Some(Field(value, offset + |e.extensions|))
  {
    if value < 0x800 {
    } else if value < 0x4_0000 {
      OneExtension(value, data, offset);
    } else {
      TwoExtensions(value, data, offset);
    }
  }

  lemma OneExtension(value: int, data: seq<byte>, offset: nat)
    requires 0x800 <= value < 0x4_0000
    requires offset + 1 <= |data| && data[offset..offset + 1] == [(value % 256) as byte]
    ensures var base := Or(0x800, value / 256 % 0x400);
            base < 0x1000 && DecodeField(base, data, offset) == Some(Field(value, offset + 1))
  {
    hide Or;
    hide ReadExtensions;
    hide Wrap32;
    var hi := value / 256;
    OrHighBits(hi);
    assert hi % 0x400 == hi && (0x800 + hi) % 0x400 == hi;
    assert data[offset] == data[offset..offset + 1][0];
    Wrap32Small(hi * 256 + value % 256);
    ReadOne(data, offset, hi);
  }

  lemma TwoExtensions(value: int, data: seq<byte>, offset: nat)
    requires 0x4_0000 <= value < 0x200_0000
    requires offset + 2 <= |data| && data[offset..offset + 2] == [(value / 256 % 256) as byte, (value % 256) as byte]
    ensures var base := Or(0xC00, value / 0x1_0000 % 0x200);
            base < 0x1000 && DecodeField(base, data, offset) == Some(Field(value, offset + 2))
  {
    hide Or;
    hide ReadExtensions;
    hide Wrap32;
    var hi, mid := value / 0x1_0000, value / 256 % 256;
    ThreeBytes(value);
    OrHighBits(hi);
    assert hi % 0x200 == hi && (0xC00 + hi) % 0x200 == hi;
    assert data[offset] == data[offset..offset + 2][0] && data[offset + 1] == data[offset..offset + 2][1];
    Wrap32Small(hi * 256 + mid);
    Wrap32Small((hi * 256 + mid) * 256 + value % 256);
    ReadTwo(data, offset, hi);
  }

  lemma ThreeBytes(value: nat)
    requires value < 0x200_0000
    ensures value / 0x1_0000 < 0x200 && value == (value / 0x1_0000 * 256 + value / 256 % 256) * 256 + value % 256
  {
    var q := value / 256;
    assert q / 256 == value / 0x1_0000;
    assert q == q / 256 * 256 + q % 256;
    assert value == q * 256 + value % 256;
  }

  lemma Wrap32Small(x: int)
    requires 0 <= x <= INT_MAX
    ensures Wrap32(x) == x
  {
  }

  lemma ReadOne(data: seq<byte>, offset: nat, value: int)
    requires offset < |data|
    ensures ReadExtensions(data, offset, 1, value) == Some(Wrap32(value * 256 + data[offset]))
  {
    assert ReadExtensions(data, offset + 1, 0, Wrap32(value * 256 + data[offset])).Some?;
  }

  lemma ReadTwo(data: seq<byte>, offset: nat, value: int)
    requires offset + 1 < |data|
    ensures ReadExtensions(data, offset, 2, value) ==
            Some(Wrap32(Wrap32(value * 256 + data[offset]) * 256 + data[offset + 1]))
  {
    ReadOne(data, offset + 1, Wrap32(value * 256 + data[offset]));
  }

  /** A value read from at most two extension bytes never needs more of them. */
  lemma ReencodeNeverLonger(base: nat, data: seq<byte>, offset: nat)
    requires base < 0x1000 && Announced(base) <= 2 && DecodeField(base, data, offset).Some?
    ensures var v := DecodeField(base, data, offset).value.value;
            v >= 0 && ExtensionCount(v).Some? && ExtensionCount(v).value <= Announced(base)
  {
    hide Wrap32;
    hide ReadExtensions;
    var n := Announced(base);
    var v := BaseBits(base, n);
    ReadNeeds(data, offset, n, v);
    if n == 0 {
      ReadNone(data, offset, v);
    } else if n == 1 {
      Wrap32Small(v * 256 + data[offset]);
      ReadOne(data, offset, v);
    } else {
      Wrap32Small(v * 256 + data[offset]);
      Wrap32Small((v * 256 + data[offset]) * 256 + data[offset + 1]);
      ReadTwo(data, offset, v);
    }
  }

  lemma ReadNone(data: seq<byte>, offset: nat, value: int)
    ensures ReadExtensions(data, offset, 0, value) == Some(value)
  {
  }

  lemma {:induction false} ReadNeeds(data: seq<byte>, offset: nat, n: nat, value: int)
    ensures ReadExtensions(data, offset, n, value).Some? ==> n == 0 || offset + n <= |data|
    decreases n
  {
    hide Wrap32;
    if n > 0 && offset < |data| {
      ReadNeeds(data, offset + 1, n - 1, Wrap32(value * 256 + data[offset]));
    }
  }

  // ----- the whole header -----

  function SequenceLength(profile: int): nat { if profile == 2 then 8 else 0 }
  function IvLength(profile: int): nat { if profile == 1 then 16 else 12 }
  function MacLength(profile: int): nat { if profile == 1 then 32 else 16 }

  /** The first four bytes as a big-endian word. */
  function Word(data: seq<byte>): nat
    requires |data| >= FIXED_SIZE
  {
    ((data[0] as nat * 256 + data[1]) * 256 + data[2]) * 256 + data[3]
  }

  /** Parses a header; `None` stands for each of the exceptions. */
  function Parse(data: seq<byte>): Option<Header> {
    if |data| < FIXED_SIZE then None
    else
      var h := Word(data);
      var s := h / 0x200_0000 % 4;
      if h / 0x2000_0000 % 8 != 7 || h / 0x800_0000 % 4 != 0 || s == 3 then None
      else
        match DecodeField(h / 0x1000 % 0x1000, data, FIXED_SIZE)
        case None => None
        case Some(l) =>
          match DecodeField(h % 0x1000, data, l.next)
          case None => None
          case Some(k) => Layout(s, l.value, k.value, k.next)
  }

  /** Sequence, IV, MAC and payload follow the extensions, in that order. */
  function Layout(s: nat, payloadLength: int, keyIndex: int, at: nat): Option<Header> {
    var iv := at + SequenceLength(s);
    var mac := iv + IvLength(s);
    var payload := mac + MacLength(s);
    if payload + payloadLength > INT_MAX then None
    else Some(Header(s, payloadLength, keyIndex, SequenceLength(s), IvLength(s), MacLength(s), iv, mac, payload, payload + payloadLength))
  }

  function RequiredSize(payloadLength: int, keyIndex: int, profile: int): Option<int> {
    match (ExtensionCount(payloadLength), ExtensionCount(keyIndex))
    case (Some(a), Some(b)) =>
      Some(FIXED_SIZE + a + b + SequenceLength(profile) + IvLength(profile) + MacLength(profile) + payloadLength)
    case _ => None
  }

  /** The header word that the writer composes. */
  function Compose(profile: int, lBase: nat, kiBase: nat): nat {
    Or(Or(Or(0xE000_0000, (profile % 4) * 0x200_0000), lBase * 0x1000 % 0x1_0000_0000), kiBase)
  }

  lemma ComposeIsSum(profile: int, lBase: nat, kiBase: nat)
    requires lBase < 0x1000 && kiBase < 0x1000
    ensures Compose(profile, lBase, kiBase) == 0xE000_0000 + (profile % 4) * 0x200_0000 + lBase * 0x1000 + kiBase
  {
    hide Or;
    var p := profile % 4;
    OrCommutes(0xE000_0000, p * 0x200_0000);
    hide Shl;
    hide Pow2;
    Powers();
    Shl29(7);
    OrShiftedIsSum(p * 0x200_0000, 7, 29);
    var top := 0x70 + p;
    Shl12(lBase);
    OrCommutes(top * 0x200_0000, lBase * 0x1000);
    Shl25(top);
    OrShiftedIsSum(lBase * 0x1000, top, 25);
    var w := top * 0x2000 + lBase;
    Shl12(w);
    OrCommutes(w * 0x1000, kiBase);
    OrShiftedIsSum(kiBase, w, 12);
  }

  lemma Powers()
    ensures Pow2(12) == 0x1000 && Pow2(25) == 0x200_0000 && Pow2(29) == 0x2000_0000
  {
    ShlOne(12);
    ShlOne(25);
    ShlOne(29);
    Shl12(1);
    Shl25(1);
    Shl29(1);
  }

  lemma Shl12(x: nat)
    ensures Shl(x, 12) == x * 0x1000
  {
    assert Shl(x, 1) == 2 * x && Shl(x, 2) == 4 * x && Shl(x, 3) == 8 * x && Shl(x, 4) == 16 * x;
    assert Shl(x, 5) == 32 * x && Shl(x, 6) == 64 * x && Shl(x, 7) == 128 * x && Shl(x, 8) == 256 * x;
    assert Shl(x, 9) == 512 * x && Shl(x, 10) == 1024 * x && Shl(x, 11) == 2048 * x;
  }

  lemma {:induction false} ShlTwice(x: nat, a: nat, b: nat)
    ensures Shl(Shl(x, a), b) == Shl(x, a + b)
  {
    if b > 0 {
      ShlTwice(x, a, b - 1);
    }
  }

  lemma Shl25(x: nat)
    ensures Shl(x, 25) == x * 0x200_0000
  {
    Shl12(x);
    ShlTwice(x, 12, 12);
    Shl12(x * 0x1000);
    assert Shl(x, 24 + 1) == 2 * Shl(x, 24);
  }

  lemma Shl29(x: nat)
    ensures Shl(x, 29) == x * 0x2000_0000
  {
    Shl25(x);
    assert Shl(x, 26) == 2 * Shl(x, 25) && Shl(x, 27) == 2 * Shl(x, 26);
    assert Shl(x, 28) == 2 * Shl(x, 27) && Shl(x, 29) == 2 * Shl(x, 28);
  }

  /** The bytes that the writer puts in front of the message. */
  function Written(payloadLength: int, keyIndex: int, profile: int): Option<seq<byte>> {
    match (EncodeField(payloadLength), EncodeField(keyIndex))
    case (Some(l), Some(k)) =>
      var h := Compose(profile, l.base, k.base);
      Some(Word4(h) + l.extensions + k.extensions)
    case _ => None
  }

  // ----- writing and parsing undo each other -----

  /** The four word bytes of a written header read back as the composed word. */
  lemma WordOfWritten(h: nat, rest: seq<byte>)
    requires h < 0x1_0000_0000
    ensures Word(Word4(h) + rest) == h
  {
    var a := h / 256;
    var b := a / 256;
    assert h == a * 256 + h % 256 && a == b * 256 + a % 256 && b == b / 256 * 256 + b % 256;
    assert h / 0x1_0000 == b && h / 0x100_0000 == b / 256;
  }

  /** The fields of a composed word. */
  lemma WordFields(p: nat, l: nat, k: nat)
    requires p < 4 && l < 0x1000 && k < 0x1000
    ensures var h := 0xE000_0000 + p * 0x200_0000 + l * 0x1000 + k;
            && h < 0x1_0000_0000 && h / 0x2000_0000 % 8 == 7 && h / 0x800_0000 % 4 == 0
            && h / 0x200_0000 % 4 == p && h / 0x1000 % 0x1000 == l && h % 0x1000 == k
  {
    var h := 0xE000_0000 + p * 0x200_0000 + l * 0x1000 + k;
    var q := 0xE_0000 + p * 0x2000 + l;
    assert h == q * 0x1000 + k;
    assert h / 0x1000 == q && h % 0x1000 == k;
    assert h / 0x200_0000 == q / 0x2000 == 0x70 + p;
    assert h / 0x800_0000 == (0x70 + p) / 4 == 0x1C;
  }

  /** For every payload length and key index the writer takes, and any profile but those that
      are 3 modulo 4, parsing a written header followed by any bytes recovers length, index and
      the profile's two low bits. */
  lemma WriteParse(payloadLength: int, keyIndex: int, profile: int, rest: seq<byte>)
    requires 0 <= payloadLength < 0x200_0000 && 0 <= keyIndex < 0x200_0000
    ensures Written(payloadLength, keyIndex, profile).Some?
    ensures var r := Parse(Written(payloadLength, keyIndex, profile).value + rest);
            if profile % 4 == 3 then r.None?
            else r.Some? && r.value.payloadLength == payloadLength && r.value.keyIndex == keyIndex && r.value.profile == profile % 4
                 && r == Layout(profile % 4, payloadLength, keyIndex, |Written(payloadLength, keyIndex, profile).value|)
  {
    hide DecodeField;
    hide EncodeField;
    hide Word4;
    hide Compose;
    EncodeInRange(payloadLength);
    EncodeInRange(keyIndex);
    var l, k := EncodeField(payloadLength).value, EncodeField(keyIndex).value;
    var h := Compose(profile, l.base, k.base);
    var data := Written(payloadLength, keyIndex, profile).value + rest;
    var next := FIXED_SIZE + |l.extensions|;
    assert data[FIXED_SIZE..next] == l.extensions;
    assert data[next..next + |k.extensions|] == k.extensions;
    FieldRoundTrip(payloadLength, data, FIXED_SIZE);
    FieldRoundTrip(keyIndex, data, next);
    ComposeIsSum(profile, l.base, k.base);
    WordFields(profile % 4, l.base, k.base);
    WordOfWritten(h, l.extensions + k.extensions + rest);
    assert data == Word4(h) + (l.extensions + k.extensions + rest);
  }

  lemma EncodeInRange(value: int)
    requires 0 <= value < 0x200_0000
    ensures EncodeField(value).Some? && |EncodeField(value).value.extensions| <= 2 && EncodeField(value).value.base < 0x1000
  {
    hide Or;
    OrHighBits(value / 256 % 0x400);
    OrHighBits(value / 0x1_0000 % 0x200);
  }

  // ----- the format's own numbers -----

  /** What a 12-bit base and the bytes after it mean: leading ones count the extension bytes, the
      bit after them is spent, and the bytes follow most significant first, in 32 signed bits. */
  lemma FieldMeaning(base: nat, data: seq<byte>, offset: nat)
    requires base < 0x1000
    ensures base < 0x800 ==> DecodeField(base, data, offset) == Some(Field(base, offset))
    ensures 0x800 <= base < 0xC00 ==>
              DecodeField(base, data, offset) ==
              if offset >= |data| then None else Some(Field((base - 0x800) * 256 + data[offset] as int, offset + 1))
    ensures 0xC00 <= base < 0xE00 ==>
              DecodeField(base, data, offset) ==
              if offset + 1 >= |data| then None
              else Some(Field((base - 0xC00) * 65536 + data[offset] as int * 256 + data[offset + 1] as int, offset + 2))
    ensures 0xE00 <= base < 0xF00 && offset + 2 >= |data| ==> DecodeField(base, data, offset) == None
    ensures 0xE00 <= base < 0xF00 && offset + 2 < |data| ==>
              var v := ((base - 0xE00) * 256 + data[offset] as int) * 65536 + data[offset + 1] as int * 256 + data[offset + 2] as int;
              DecodeField(base, data, offset) == Some(Field(if v < 0x8000_0000 then v else v - 0x1_0000_0000, offset + 3))
    ensures base >= 0xF00 ==> DecodeField(base, data, offset) == None
  {
    BaseRanges(base);
    hide Announced;
    hide BaseBits;
    if 0x800 <= base < 0xC00 {
      if offset < |data| {
        ReadOne(data, offset, base - 0x800);
        Wrap32Small((base - 0x800) * 256 + data[offset] as int);
      }
    } else if 0xC00 <= base < 0xE00 {
      ReadNeeds(data, offset, 2, base - 0xC00);
      hide ReadExtensions;
      if offset + 1 < |data| {
        ReadTwoPlain(data, offset, base - 0xC00);
      }
    } else if 0xE00 <= base < 0xF00 {
      ReadNeeds(data, offset, 3, base - 0xE00);
      hide ReadExtensions;
      if offset + 2 < |data| {
        ReadThree(data, offset, base - 0xE00);
      }
    }
  }

  lemma BaseRanges(base: nat)
    requires base < 0x1000
    ensures base < 0x800 ==> Announced(base) == 0 && BaseBits(base, 0) == base
    ensures 0x800 <= base < 0xC00 ==> Announced(base) == 1 && BaseBits(base, 1) == base - 0x800
    ensures 0xC00 <= base < 0xE00 ==> Announced(base) == 2 && BaseBits(base, 2) == base - 0xC00
    ensures 0xE00 <= base < 0xF00 ==> Announced(base) == 3 && BaseBits(base, 3) == base - 0xE00
    ensures base >= 0xF00 ==> Announced(base) > 3
  {
  }

  lemma ReadTwoPlain(data: seq<byte>, offset: nat, value: nat)
    requires offset + 1 < |data| && value < 0x200
    ensures ReadExtensions(data, offset, 2, value) == Some(value * 65536 + data[offset] as int * 256 + data[offset + 1] as int)
  {
    ReadTwo(data, offset, value);
    Wrap32Small(value * 256 + data[offset] as int);
    Wrap32Small((value * 256 + data[offset] as int) * 256 + data[offset + 1] as int);
  }

  lemma ReadThree(data: seq<byte>, offset: nat, value: nat)
    requires offset + 2 < |data| && value < 0x100
    ensures var v := (value * 256 + data[offset] as int) * 65536 + data[offset + 1] as int * 256 + data[offset + 2] as int;
            ReadExtensions(data, offset, 3, value) == Some(if v < 0x8000_0000 then v else v - 0x1_0000_0000)
  {
    var a := value * 256 + data[offset] as int;
    var b := a * 256 + data[offset + 1] as int;
    ReadTwo(data, offset + 1, a);
    Wrap32Small(a);
    Wrap32Small(b);
    assert ReadExtensions(data, offset, 3, value) == ReadExtensions(data, offset + 1, 2, Wrap32(a));
  }

  /** How many extension bytes the writer spends: none below 2^11, one below 2^18, two below 2^25. */
  lemma FieldWidths(value: int)
    ensures EncodeField(value).Some? <==> value < 0x200_0000
    ensures value < 0x200_0000 ==>
              |EncodeField(value).value.extensions| == if value < 2048 then 0 else if value < 262144 then 1 else 2
  {
  }

  /** The four fixed bytes: three magic and two version bits, all as they must be; two bits of
      profile, of which three values are known; one bit that is ignored; twelve for the payload
      length and twelve for the key index. */
  lemma ParseIff(data: seq<byte>)
    ensures Parse(data).Some? <==>
            && |data| >= 4 && data[0] / 8 == 0x1C && data[0] / 2 % 4 <= 2
            && var l := DecodeField(data[1] as nat * 16 + data[2] as nat / 16, data, 4);
               l.Some? && var k := DecodeField(data[2] as nat % 16 * 256 + data[3] as nat, data, l.value.next);
                          k.Some? && Layout(data[0] as nat / 2 % 4, l.value.value, k.value.value, k.value.next).Some?
    ensures Parse(data).Some? ==>
            var l := DecodeField(data[1] as nat * 16 + data[2] as nat / 16, data, 4).value;
            var k := DecodeField(data[2] as nat % 16 * 256 + data[3] as nat, data, l.next).value;
            var h := Parse(data).value;
            h.profile == data[0] as nat / 2 % 4 && h.payloadLength == l.value && h.keyIndex == k.value
  {
    hide DecodeField;
    if |data| >= 4 {
      WordParts(data[0] as nat, data[1] as nat, data[2] as nat, data[3] as nat);
    }
  }

  lemma WordParts(a: nat, b: nat, c: nat, d: nat)
    requires a < 256 && b < 256 && c < 256 && d < 256
    ensures var h := ((a * 256 + b) * 256 + c) * 256 + d;
            && h / 0x2000_0000 % 8 == a / 32 && h / 0x800_0000 % 4 == a / 8 % 4 && h / 0x200_0000 % 4 == a / 2 % 4
            && h / 0x1000 % 0x1000 == b * 16 + c / 16 && h % 0x1000 == c % 16 * 256 + d
            && (a / 8 == 0x1C <==> a / 32 == 7 && a / 8 % 4 == 0)
  {
    var h := ((a * 256 + b) * 256 + c) * 256 + d;
    var low := (b * 256 + c) * 256 + d;
    assert h == a * 0x100_0000 + low && low < 0x100_0000;
    assert h / 0x200_0000 == a / 2 && h / 0x800_0000 == a / 8 && h / 0x2000_0000 == a / 32;
    assert h / 0x1000 == a * 0x1000 + (b * 16 + c / 16);
  }

  /** Sequence, IV and MAC lengths by profile, and where that puts the payload. */
  lemma RegionNumbers(data: seq<byte>)
    ensures Parse(data).Some? ==>
            var h := Parse(data).value;
            var n := h.ivOffset - h.sequenceLength;
            && (h.profile == 0 ==> (h.sequenceLength, h.ivLength, h.macLength, h.payloadOffset) == (0, 12, 16, n + 28))
            && (h.profile == 1 ==> (h.sequenceLength, h.ivLength, h.macLength, h.payloadOffset) == (0, 16, 32, n + 48))
            && (h.profile == 2 ==> (h.sequenceLength, h.ivLength, h.macLength, h.payloadOffset) == (8, 12, 16, n + 36))
            && h.profile <= 2 && h.macOffset == h.ivOffset + h.ivLength && h.totalLength == h.payloadOffset + h.payloadLength
  {
    hide DecodeField;
  }

  /** A message must not be longer than 2^31 - 1 bytes. */
  lemma LengthLimit(s: nat, payloadLength: int, keyIndex: int, at: nat)
    requires s <= 2
    ensures Layout(s, payloadLength, keyIndex, at).Some? <==>
            at + (if s == 0 then 28 else if s == 1 then 48 else 36) + payloadLength <= 2147483647
  {
  }

  /** The size required: 32 bytes, 52 for profile 1, 40 for profile 2, the extension bytes and the
      payload. */
  lemma SizeNumbers(payloadLength: int, keyIndex: int, profile: int)
    ensures RequiredSize(payloadLength, keyIndex, profile).Some? <==> payloadLength < 0x200_0000 && keyIndex < 0x200_0000
    ensures payloadLength < 0x200_0000 && keyIndex < 0x200_0000 ==>
              RequiredSize(payloadLength, keyIndex, profile).value ==
              (if profile == 1 then 52 else if profile == 2 then 40 else 32)
              + |EncodeField(payloadLength).value.extensions| + |EncodeField(keyIndex).value.extensions| + payloadLength
  {
    ExtensionsMatch(payloadLength);
    ExtensionsMatch(keyIndex);
    FieldWidths(payloadLength);
    FieldWidths(keyIndex);
    hide EncodeField;
  }

  /** The regions of a parsed header follow one another without gaps, from the end of the
      extension bytes to the end of the message. */
  lemma RegionsTile(data: seq<byte>)
    ensures Parse(data).Some? ==>
            var h := Parse(data).value;
            var n := FIXED_SIZE + Announced(Word(data) / 0x1000 % 0x1000) + Announced(Word(data) % 0x1000);
            && h.ivOffset - h.sequenceLength == n
            && h.ivOffset + h.ivLength == h.macOffset && h.macOffset + h.macLength == h.payloadOffset
            && h.payloadOffset + h.payloadLength == h.totalLength
  {
  }

  /** A region of a message can be taken from it. */
  predicate Inside(start: int, length: int, message: nat) {
    0 <= start && 0 <= length && start + length <= message
  }

  /** All four regions lie inside a message exactly if the payload's length is not negative and the
      message has the total length at least. */
  lemma RegionsInsideIff(data: seq<byte>, message: nat)
    ensures Parse(data).Some? ==>
            var h := Parse(data).value;
            (&& (h.sequenceLength > 0 ==> Inside(h.ivOffset - h.sequenceLength, h.sequenceLength, message))
             && Inside(h.ivOffset, h.ivLength, message) && Inside(h.macOffset, h.macLength, message)
             && Inside(h.payloadOffset, h.payloadLength, message))
            <==> 0 <= h.payloadLength && h.totalLength <= message
  {
    hide DecodeField;
  }

  /** A written message is exactly as long as the required size, if and only if the profile is 1
      or 2 or has its two low bits clear. */
  lemma RequiredSizeExactIff(payloadLength: int, keyIndex: int, profile: int, rest: seq<byte>)
    requires 0 <= payloadLength < 0x200_0000 && 0 <= keyIndex < 0x200_0000 && profile % 4 != 3
    ensures RequiredSize(payloadLength, keyIndex, profile).Some?
    ensures Written(payloadLength, keyIndex, profile).Some?
    ensures var r := Parse(Written(payloadLength, keyIndex, profile).value + rest);
            && r.Some?
            && (r.value.totalLength == RequiredSize(payloadLength, keyIndex, profile).value <==>
                profile == 1 || profile == 2 || profile % 4 == 0)
  {
    hide Parse;
    hide Compose;
    WriteParse(payloadLength, keyIndex, profile, rest);
  }

  /** Writing a parsed header again, when neither field has three extension bytes, takes no more
      bytes than it had. */
  lemma RewriteNeverLonger(data: seq<byte>)
    requires Parse(data).Some?
    requires Announced(Word(data) / 0x1000 % 0x1000) <= 2 && Announced(Word(data) % 0x1000) <= 2
    ensures var h := Parse(data).value;
            && Written(h.payloadLength, h.keyIndex, h.profile).Some?
            && |Written(h.payloadLength, h.keyIndex, h.profile).value| <= h.ivOffset - h.sequenceLength
  {
    hide DecodeField;
    hide Compose;
    var w := Word(data);
    ReencodeNeverLonger(w / 0x1000 % 0x1000, data, FIXED_SIZE);
    var l := DecodeField(w / 0x1000 % 0x1000, data, FIXED_SIZE).value;
    ReencodeNeverLonger(w % 0x1000, data, l.next);
    DecodedNext(w / 0x1000 % 0x1000, data, FIXED_SIZE);
    DecodedNext(w % 0x1000, data, l.next);
  }

  lemma DecodedNext(base: nat, data: seq<byte>, offset: nat)
    requires DecodeField(base, data, offset).Some?
    ensures DecodeField(base, data, offset).value.next == offset + Announced(base)
  {
  }

  // ----- the writer and the parser as they run -----

  /** Writes a value's extension bytes and gives the base bits, or none for a value too large. */
  method EncodeVariableLength12(value: int, destination: array<byte>, offset: nat) returns (base: Option<nat>, next: nat)
    requires offset + (if ExtensionCount(value).Some? then ExtensionCount(value).value else 0) <= destination.Length
    modifies destination
    ensures base.Some? <==> EncodeField(value).Some?
    ensures base.None? ==> next == offset && destination[..] == old(destination[..])
    ensures base.Some? ==>
              var e := EncodeField(value).value;
              && base.value == e.base && next == offset + |e.extensions|
              && destination[offset..next] == e.extensions
              && destination[..offset] == old(destination[..offset]) && destination[next..] == old(destination[next..])
  {
    hide Or;
    if value < 0x800 {
      return Some(value % 0x10000), offset;
    }
    if value < 0x4_0000 {
      destination[offset] := (value % 256) as byte;
      return Some(Or(0x800, value / 256 % 0x400)), offset + 1;
    }
    if value < 0x200_0000 {
      destination[offset] := (value / 256 % 256) as byte;
      destination[offset + 1] := (value % 256) as byte;
      return Some(Or(0xC00, value / 0x1_0000 % 0x200)), offset + 2;
    }
    return None, offset;
  }

  /** Writes a header at the front of a buffer that can hold the whole message. A buffer that is
      too small is refused with nothing written. A negative payload length can make the message
      shorter than its own header; then the bytes up to the first that does not fit are written. */
  method Write(destination: array<byte>, payloadLength: int, keyIndex: int, profile: int) returns (ok: bool)
    modifies destination
    ensures ok <==> LargeEnough(destination.Length, payloadLength, keyIndex, profile)
                    && destination.Length >= |Written(payloadLength, keyIndex, profile).value|
    ensures ok ==> var front := Written(payloadLength, keyIndex, profile).value;
                   destination[..] == front + old(destination[|front|..])
    ensures !ok ==> destination[..] == if LargeEnough(destination.Length, payloadLength, keyIndex, profile)
                                       then Partly(old(destination[..]), payloadLength, keyIndex, profile)
                                       else old(destination[..])
    ensures !ok && LargeEnough(destination.Length, payloadLength, keyIndex, profile) ==> payloadLength < 0
  {
    hide Compose;
    hide EncodeField;
    var size := RequiredSize(payloadLength, keyIndex, profile);
    ExtensionsMatch(payloadLength);
    ExtensionsMatch(keyIndex);
    if size.None? || destination.Length < size.value {
      return false;
    }
    if destination.Length < FIXED_SIZE + ExtensionCount(payloadLength).value + ExtensionCount(keyIndex).value {
      WritePartly(destination, payloadLength, keyIndex, profile);
      return false;
    }
    var lBase, kiBase := WriteFields(destination, payloadLength, keyIndex);
    ghost var d := destination[..];
    PutWord(destination, Compose(profile, lBase, kiBase));
    ghost var l, k := EncodeField(payloadLength).value.extensions, EncodeField(keyIndex).value.extensions;
    ghost var end := FIXED_SIZE + |l + k|;
    assert d[FIXED_SIZE..] == d[FIXED_SIZE..end] + d[end..];
    assert destination[..] == destination[..FIXED_SIZE] + destination[FIXED_SIZE..];
    assert Word4(Compose(profile, lBase, kiBase)) + ((l + k) + d[end..]) == Word4(Compose(profile, lBase, kiBase)) + l + k + d[end..];
    return true;
  }

  /** Both values can be encoded, and the buffer has the required size. */
  predicate LargeEnough(length: nat, payloadLength: int, keyIndex: int, profile: int)
    ensures LargeEnough(length, payloadLength, keyIndex, profile) ==>
              EncodeField(payloadLength).Some? && EncodeField(keyIndex).Some? && Written(payloadLength, keyIndex, profile).Some?
  {
    var size := RequiredSize(payloadLength, keyIndex, profile);
    size.Some? && length >= size.value
  }

  /** A buffer shorter than the header, after writing as far as it goes: extension bytes come
      first, and the word only after all of them. */
  function Partly(d: seq<byte>, payloadLength: int, keyIndex: int, profile: int): seq<byte>
    requires EncodeField(payloadLength).Some? && EncodeField(keyIndex).Some?
  {
    var l, k := EncodeField(payloadLength).value, EncodeField(keyIndex).value;
    if |k.extensions| == 0 then Word4(Compose(profile, l.base, k.base))[..if |d| <= FIXED_SIZE then |d| else FIXED_SIZE]
    else if |d| <= FIXED_SIZE then d
    else d[..FIXED_SIZE] + k.extensions[..if |d| - FIXED_SIZE <= |k.extensions| then |d| - FIXED_SIZE else |k.extensions|]
  }

  method WritePartly(destination: array<byte>, payloadLength: int, keyIndex: int, profile: int)
    requires payloadLength < 0x800 && EncodeField(payloadLength).Some? && EncodeField(keyIndex).Some?
    requires destination.Length < FIXED_SIZE + |EncodeField(keyIndex).value.extensions|
    modifies destination
    ensures destination[..] == Partly(old(destination[..]), payloadLength, keyIndex, profile)
  {
    var l, k := EncodeField(payloadLength).value, EncodeField(keyIndex).value;
    hide EncodeField;
    hide Compose;
    ghost var was := destination[..];
    var word := Word4(Compose(profile, l.base, k.base));
    hide Word4;
    if |k.extensions| == 0 {
      for i := 0 to destination.Length
        invariant forall j :: 0 <= j < i ==> destination[j] == word[j]
      {
        destination[i] := word[i];
      }
    } else {
      var i := FIXED_SIZE;
      while i < destination.Length
        invariant FIXED_SIZE <= i && (i == FIXED_SIZE || i <= destination.Length)
        invariant forall j :: 0 <= j < destination.Length && j < FIXED_SIZE ==> destination[j] == was[j]
        invariant forall j :: FIXED_SIZE <= j < i && j < destination.Length ==> destination[j] == k.extensions[j - FIXED_SIZE]
      {
        destination[i] := k.extensions[i - FIXED_SIZE];
        i := i + 1;
      }
    }
  }

  lemma ExtensionsMatch(value: int)
    ensures EncodeField(value).Some? <==> ExtensionCount(value).Some?
    ensures EncodeField(value).Some? ==> |EncodeField(value).value.extensions| == ExtensionCount(value).value
  {
  }

  method WriteFields(destination: array<byte>, payloadLength: int, keyIndex: int) returns (lBase: nat, kiBase: nat)
    requires ExtensionCount(payloadLength).Some? && ExtensionCount(keyIndex).Some?
    requires FIXED_SIZE + ExtensionCount(payloadLength).value + ExtensionCount(keyIndex).value <= destination.Length
    requires EncodeField(payloadLength).Some? && EncodeField(keyIndex).Some?
    modifies destination
    ensures var l, k := EncodeField(payloadLength).value, EncodeField(keyIndex).value;
            var end := FIXED_SIZE + |l.extensions + k.extensions|;
            && lBase == l.base && kiBase == k.base
            && destination[FIXED_SIZE..end] == l.extensions + k.extensions
            && destination[end..] == old(destination[end..])
  {
    hide EncodeField;
    ExtensionsMatch(payloadLength);
    ExtensionsMatch(keyIndex);
    var l, next := EncodeVariableLength12(payloadLength, destination, FIXED_SIZE);
    ghost var d := destination[..];
    var k, end := EncodeVariableLength12(keyIndex, destination, next);
    lBase, kiBase := l.value, k.value;
    Slices(destination[..], FIXED_SIZE, next, end);
    Slices(d, FIXED_SIZE, next, end);
    assert destination[..][..next] == destination[..next] && d[..next] == destination[..next];
  }

  lemma Slices(s: seq<byte>, a: nat, b: nat, c: nat)
    requires a <= b <= c <= |s|
    ensures s[a..c] == s[a..b] + s[b..c] && s[..b][a..] == s[a..b] && s[b..][c - b..] == s[c..]
  {
  }

  /** A word as four big-endian bytes. */
  function Word4(h: nat): (r: seq<byte>)
    ensures |r| == 4
  {
    [(h / 0x100_0000 % 256) as byte, (h / 0x1_0000 % 256) as byte, (h / 256 % 256) as byte, (h % 256) as byte]
  }

  method PutWord(destination: array<byte>, h: nat)
    requires destination.Length >= FIXED_SIZE
    modifies destination
    ensures destination[..FIXED_SIZE] == Word4(h) && destination[FIXED_SIZE..] == old(destination[FIXED_SIZE..])
  {
    destination[0] := (h / 0x100_0000 % 256) as byte;
    destination[1] := (h / 0x1_0000 % 256) as byte;
    destination[2] := (h / 256 % 256) as byte;
    destination[3] := (h % 256) as byte;
  }

  method ParseHeader(data: seq<byte>) returns (r: Option<Header>)
    ensures r == Parse(data)
  {
    hide DecodeField;
    if |data| < FIXED_SIZE {
      return None;
    }
    var h := Word(data);
    var magic := h / 0x2000_0000 % 8;
    if magic != 7 {
      return None;
    }
    var version := h / 0x800_0000 % 4;
    if version != 0 {
      return None;
    }
    var s := h / 0x200_0000 % 4;
    if s == 3 {
      return None;
    }
    var l := DecodeVariableLength12(h / 0x1000 % 0x1000, data, FIXED_SIZE);
    if l.None? {
      return None;
    }
    var k := DecodeVariableLength12(h % 0x1000, data, l.value.next);
    if k.None? {
      return None;
    }
    return Layout(s, l.value.value, k.value.value, k.value.next);
  }
}
