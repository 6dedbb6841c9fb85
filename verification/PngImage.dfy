/** A PNG image from its decompressed bytes: one stream of filtered scanlines, or seven of them, one
    after the other, for the passes of an interlaced image. */
module PngImage {
  import opened Words
  import opened Arith
  import opened PngFilter
  import opened Adam7

  // ----- scanlines as bytes, and back -----

  ghost predicate Lines(lines: seq<Scanline>, nk: nat) {
    forall i :: 0 <= i < |lines| ==> lines[i].f <= 4 && |lines[i].bytes| == nk
  }

  /** The bytes of filtered scanlines: each its filter type and its contents. */
  function Serialize(lines: seq<Scanline>): seq<byte>
    requires forall i :: 0 <= i < |lines| ==> lines[i].f < 256
  {
    if lines == [] then [] else [lines[0].f as byte] + lines[0].bytes + Serialize(lines[1..])
  }

  lemma {:induction false} SerializeLength(lines: seq<Scanline>, nk: nat)
    requires Lines(lines, nk)
    ensures |Serialize(lines)| == Bytes(nk, |lines|)
    decreases |lines|
  {
    if lines != [] {
      SerializeLength(lines[1..], nk);
    }
  }

  /** Scanlines written one after the other are the scanlines read. */
  lemma {:induction false} SerializeScan(lines: seq<Scanline>, nk: nat, rest: seq<byte>)
    requires Lines(lines, nk)
    ensures |Serialize(lines)| == Bytes(nk, |lines|)
    ensures Scanlines(Serialize(lines) + rest, nk, |lines|) == lines
    decreases |lines|
  {
    SerializeLength(lines, nk);
    if lines != [] {
      SerializeLength(lines[1..], nk);
      SerializeScan(lines[1..], nk, rest);
      var tail := Serialize(lines[1..]) + rest;
      assert Serialize(lines) + rest == Joined(lines[0], tail);
      hide Serialize;
      hide Joined;
      ScanJoined(lines[0], tail, nk, |lines|);
    }
  }

  function Joined(line: Scanline, tail: seq<byte>): seq<byte>
    requires line.f < 256
  {
    [line.f as byte] + line.bytes + tail
  }

  lemma FirstLine(line: Scanline, tail: seq<byte>, nk: nat)
    requires line.f < 256 && nk == |line.bytes|
    ensures var raw := Joined(line, tail);
            |raw| == nk + 1 + |tail| && raw[0] == line.f as byte && raw[1..nk + 1] == line.bytes && raw[nk + 1..] == tail
  {
  }

  lemma ScanJoined(line: Scanline, tail: seq<byte>, nk: nat, n: nat)
    requires line.f < 256 && nk == |line.bytes| && n > 0 && |tail| >= Bytes(nk, n - 1)
    ensures |Joined(line, tail)| >= Bytes(nk, n)
    ensures Scanlines(Joined(line, tail), nk, n) == [line] + Scanlines(tail, nk, n - 1)
  {
    FirstLine(line, tail, nk);
    var raw := Joined(line, tail);
    hide Joined;
    assert |raw| >= Bytes(nk, n);
    ScanStep(raw, nk, n);
    hide Scanlines;
    hide Bytes;
    var all := Scanlines(raw, nk, n);
    assert all == [all[0]] + all[1..];
  }

  ghost predicate Rows(rows: seq<seq<byte>>, nk: nat) {
    forall i :: 0 <= i < |rows| ==> |rows[i]| == nk
  }

  ghost predicate Types(fs: seq<nat>) {
    forall i :: 0 <= i < |fs| ==> fs[i] <= 4
  }

  lemma {:induction false} FilteredLines(fb: nat, fs: seq<nat>, rows: seq<seq<byte>>, prior: seq<byte>)
    requires 0 < fb && |fs| == |rows| && Rows(rows, |prior|) && Types(fs)
    ensures Lines(FilterImage(fb, fs, rows, prior), |prior|)
    decreases |rows|
  {
    if rows != [] {
      FilteredLines(fb, fs[1..], rows[1..], rows[0]);
    }
  }

  /** The byte stream of an image's rows, filtered with the types `fs`. */
  function Encoded(fb: nat, nk: nat, fs: seq<nat>, rows: seq<seq<byte>>): seq<byte>
    requires 0 < fb && |fs| == |rows| && Rows(rows, nk) && Types(fs)
  {
    FilteredLines(fb, fs, rows, Zeros(nk));
    Serialize(FilterImage(fb, fs, rows, Zeros(nk)))
  }

  /** `Reconstruct` accepts the bytes. */
  ghost predicate Acceptable(raw: seq<byte>, nk: nat, y: nat) {
    |raw| >= Bytes(nk, y) && forall i :: 0 <= i < y ==> Scanlines(raw, nk, y)[i].f <= 4
  }

  /** An encoded image, whatever follows it, is accepted and gives back its rows. */
  lemma EncodedRoundTrip(fb: nat, nk: nat, fs: seq<nat>, rows: seq<seq<byte>>, rest: seq<byte>)
    requires 0 < fb && |fs| == |rows| && Rows(rows, nk) && Types(fs)
    ensures var raw := Encoded(fb, nk, fs, rows) + rest;
            && Acceptable(raw, nk, |rows|) && raw[Bytes(nk, |rows|)..] == rest
            && ReconImage(fb, Scanlines(raw, nk, |rows|), Zeros(nk)) == rows
  {
    var lines := FilterImage(fb, fs, rows, Zeros(nk));
    FilteredLines(fb, fs, rows, Zeros(nk));
    SerializeScan(lines, nk, rest);
    ImageRoundTrip(fb, fs, rows, Zeros(nk));
  }

  // ----- seven passes -----

  /** Bits to a pixel, and the distance of the byte that filtering takes for the left neighbour. */
  datatype Layout = Layout(bits: nat, fb: nat)

  predicate Proper(l: Layout) {
    l.bits > 0 && (l.fb == 1 || (l.fb > 0 && l.bits == 8 * l.fb))
  }

  function RowBytes(l: Layout, x: nat): (nk: nat)
    requires Proper(l)
    ensures x > 0 ==> nk >= l.fb
  {
    MulNonNegative(l.bits, x);
    if x > 0 then MulAtLeast(x, l.bits); (l.bits * x + 7) / 8
    else (l.bits * x + 7) / 8
  }

  /** A row takes as many bytes as its bits fill, the last one perhaps in part. */
  lemma RowBytesExact(l: Layout, x: nat)
    requires Proper(l)
    ensures 8 * RowBytes(l, x) - 8 < l.bits * x <= 8 * RowBytes(l, x)
  {
  }

  function PassX(p: nat, w: nat): nat
    requires p < 7
  {
    ExtentNonNegative(XAxis(p), w);
    Extent(XAxis(p), w)
  }

  function PassY(p: nat, h: nat): nat
    requires p < 7
  {
    ExtentNonNegative(YAxis(p), h);
    Extent(YAxis(p), h)
  }

  predicate EmptyPass(p: nat, w: nat, h: nat)
    requires p < 7
  {
    PassX(p, w) == 0 || PassY(p, h) == 0
  }

  /** How a row of `x` pixels is expanded from its bytes. */
  type Expander<!T> = (seq<byte>, nat) -> seq<T>

  ghost predicate Expands<T(!new)>(e: Expander<T>) {
    forall row, x :: |e(row, x)| == x
  }

  function Expanded<T>(e: Expander<T>, rows: seq<seq<byte>>, x: nat): Reduced<T> {
    seq(|rows|, j requires 0 <= j < |rows| => e(rows[j], x))
  }

  /** Pass `p` can be read from `raw`: it has no pixels, or its scanlines are acceptable. */
  ghost predicate PassAcceptable(raw: seq<byte>, l: Layout, w: nat, h: nat, p: nat)
    requires Proper(l) && p < 7
  {
    EmptyPass(p, w, h) || Acceptable(raw, RowBytes(l, PassX(p, w)), PassY(p, h))
  }

  /** What pass `p` holds. */
  ghost function PassAt<T>(raw: seq<byte>, l: Layout, w: nat, h: nat, e: Expander<T>, p: nat): Reduced<T>
    requires Proper(l) && p < 7 && PassAcceptable(raw, l, w, h, p)
  {
    if EmptyPass(p, w, h) then seq(PassY(p, h), j => [])
    else
      var nk := RowBytes(l, PassX(p, w));
      Expanded(e, ReconImage(l.fb, Scanlines(raw, nk, PassY(p, h)), Zeros(nk)), PassX(p, w))
  }

  /** What follows pass `p`. */
  function PassRest(raw: seq<byte>, l: Layout, w: nat, h: nat, p: nat): seq<byte>
    requires Proper(l) && p < 7 && PassAcceptable(raw, l, w, h, p)
  {
    if EmptyPass(p, w, h) then raw else raw[Bytes(RowBytes(l, PassX(p, w)), PassY(p, h))..]
  }

  /** Passes `p` to 6 can all be read from `raw`, one after the other. */
  ghost predicate PassesAcceptable(raw: seq<byte>, l: Layout, w: nat, h: nat, p: nat)
    requires Proper(l) && p <= 7
    decreases 7 - p
  {
    p == 7 || (PassAcceptable(raw, l, w, h, p) && PassesAcceptable(PassRest(raw, l, w, h, p), l, w, h, p + 1))
  }

  /** What passes `p` to 6 hold. */
  ghost function Passes<T>(raw: seq<byte>, l: Layout, w: nat, h: nat, e: Expander<T>, p: nat): (subs: seq<Reduced<T>>)
    requires Proper(l) && p <= 7 && PassesAcceptable(raw, l, w, h, p)
    ensures |subs| == 7 - p
    decreases 7 - p
  {
    if p == 7 then []
    else [PassAt(raw, l, w, h, e, p)] + Passes(PassRest(raw, l, w, h, p), l, w, h, e, p + 1)
  }

  lemma PassAtSized<T(!new)>(raw: seq<byte>, l: Layout, w: nat, h: nat, e: Expander<T>, p: nat)
    requires Proper(l) && p < 7 && PassAcceptable(raw, l, w, h, p) && Expands(e)
    ensures PassSized(PassAt(raw, l, w, h, e, p), Extent(XAxis(p), w), Extent(YAxis(p), h))
  {
    hide XAxis;
    hide YAxis;
    hide Extent;
    hide RowBytes;
    hide Scanlines;
    hide Bytes;
  }

  lemma {:induction false} PassesSized<T(!new)>(raw: seq<byte>, l: Layout, w: nat, h: nat, e: Expander<T>, p: nat, q: nat)
    requires Proper(l) && p <= q < 7 && PassesAcceptable(raw, l, w, h, p) && Expands(e)
    ensures PassSized(Passes(raw, l, w, h, e, p)[q - p], Extent(XAxis(q), w), Extent(YAxis(q), h))
    decreases 7 - p
  {
    hide PassAcceptable;
    hide PassAt;
    hide PassRest;
    hide PassSized;
    hide XAxis;
    hide YAxis;
    hide Extent;
    if q > p {
      PassesSized(PassRest(raw, l, w, h, p), l, w, h, e, p + 1, q);
    } else {
      PassAtSized(raw, l, w, h, e, p);
    }
  }

  lemma PassesWellSized<T(!new)>(raw: seq<byte>, l: Layout, w: nat, h: nat, e: Expander<T>)
    requires Proper(l) && PassesAcceptable(raw, l, w, h, 0) && Expands(e)
    ensures WellSized(Passes(raw, l, w, h, e, 0), w, h)
  {
    hide Passes;
    hide PassesAcceptable;
    hide PassSized;
    hide XAxis;
    hide YAxis;
    hide Extent;
    hide Expands;
    forall q | 0 <= q < 7
      ensures PassSized(Passes(raw, l, w, h, e, 0)[q], Extent(XAxis(q), w), Extent(YAxis(q), h))
    {
      PassesSized(raw, l, w, h, e, 0, q);
    }
  }

  /** Decodes an interlaced image: accepted exactly if every pass that has pixels can be read where
      the one before it ends, and then every pixel is its own sample. */
  method CreateInterlaced<T(!new)>(raw: seq<byte>, l: Layout, e: Expander<T>, final: array2<T>) returns (ok: bool)
    requires Proper(l) && Expands(e)
    modifies final
    ensures ok <==> PassesAcceptable(raw, l, final.Length1, final.Length0, 0)
    ensures ok ==> WellSized(Passes(raw, l, final.Length1, final.Length0, e, 0), final.Length1, final.Length0)
    ensures ok ==> forall x: nat, y: nat :: x < final.Length1 && y < final.Length0 ==>
              final[y, x] == Sample(Passes(raw, l, final.Length1, final.Length0, e, 0), final.Length1, final.Length0, x, y)
  {
    hide Sample;
    hide WellSized;
    var subs;
    ok, subs := ReadPasses(raw, l, e, final.Length1, final.Length0);
    if ok {
      PassesWellSized(raw, l, final.Length1, final.Length0, e);
      Deinterlace(final, subs);
    }
  }

  /** Reads the seven passes, moving on by the bytes of each that has pixels. */
  method ReadPasses<T(!new)>(raw: seq<byte>, l: Layout, e: Expander<T>, w: nat, h: nat)
    returns (ok: bool, subs: seq<Reduced<T>>)
    requires Proper(l)
    ensures ok <==> PassesAcceptable(raw, l, w, h, 0)
    ensures ok ==> subs == Passes(raw, l, w, h, e, 0)
  {
    hide PassAcceptable;
    hide PassAt;
    hide PassRest;
    var at := raw;
    subs := [];
    for p := 0 to 7
      invariant PassesAcceptable(at, l, w, h, p) <==> PassesAcceptable(raw, l, w, h, 0)
      invariant PassesAcceptable(at, l, w, h, p) ==> subs + Passes(at, l, w, h, e, p) == Passes(raw, l, w, h, e, 0)
    {
      var sub, rest;
      ok, sub, rest := ReadPass(at, l, e, w, h, p);
      if !ok {
        return;
      }
      at, subs := rest, subs + [sub];
    }
    ok := true;
  }

  method ReadPass<T(!new)>(at: seq<byte>, l: Layout, e: Expander<T>, w: nat, h: nat, p: nat)
    returns (ok: bool, sub: Reduced<T>, rest: seq<byte>)
    requires Proper(l) && p < 7
    ensures ok <==> PassAcceptable(at, l, w, h, p)
    ensures ok ==> sub == PassAt(at, l, w, h, e, p) && rest == PassRest(at, l, w, h, p)
  {
    hide ReconImage;
    hide Scanlines;
    hide Bytes;
    hide RowBytes;
    hide PassX;
    hide PassY;
    var x, y := PassX(p, w), PassY(p, h);
    if x == 0 || y == 0 {
      return true, seq(y, j => []), at;
    }
    var nk := RowBytes(l, x);
    var rows;
    ok, rows := Reconstruct(at, l.fb, nk, y);
    if !ok {
      return false, [], at;
    }
    return true, Expanded(e, rows, x), at[Bytes(nk, y)..];
  }

  // ----- encoding an interlaced image -----

  /** One pass as packed rows, with a filter type for each. */
  datatype PassImage = PassImage(fs: seq<nat>, rows: seq<seq<byte>>)

  ghost predicate PassEncodable(i: PassImage, l: Layout, w: nat, h: nat, p: nat)
    requires Proper(l) && p < 7
  {
    |i.rows| == |i.fs| == PassY(p, h) && Rows(i.rows, RowBytes(l, PassX(p, w))) && Types(i.fs)
  }

  ghost function EncodedPass(i: PassImage, l: Layout, w: nat, h: nat, p: nat): seq<byte>
    requires Proper(l) && p < 7 && PassEncodable(i, l, w, h, p)
  {
    if EmptyPass(p, w, h) then [] else Encoded(l.fb, RowBytes(l, PassX(p, w)), i.fs, i.rows)
  }

  lemma PassRoundTrip<T>(i: PassImage, l: Layout, w: nat, h: nat, e: Expander<T>, p: nat, rest: seq<byte>)
    requires Proper(l) && p < 7 && PassEncodable(i, l, w, h, p)
    ensures var raw := EncodedPass(i, l, w, h, p) + rest;
            && PassAcceptable(raw, l, w, h, p) && PassRest(raw, l, w, h, p) == rest
            && (!EmptyPass(p, w, h) ==> PassAt(raw, l, w, h, e, p) == Expanded(e, i.rows, PassX(p, w)))
  {
    hide PassX;
    hide PassY;
    hide RowBytes;
    hide Encoded;
    hide ReconImage;
    hide Scanlines;
    hide Bytes;
    if EmptyPass(p, w, h) {
      assert [] + rest == rest;
    } else {
      EncodedRoundTrip(l.fb, RowBytes(l, PassX(p, w)), i.fs, i.rows, rest);
    }
  }

  ghost predicate Encodable(ps: seq<PassImage>, l: Layout, w: nat, h: nat, p: nat)
    requires Proper(l) && p <= 7
    decreases 7 - p
  {
    if p == 7 then ps == []
    else ps != [] && PassEncodable(ps[0], l, w, h, p) && Encodable(ps[1..], l, w, h, p + 1)
  }

  ghost function EncodedPasses(ps: seq<PassImage>, l: Layout, w: nat, h: nat, p: nat): seq<byte>
    requires Proper(l) && p <= 7 && Encodable(ps, l, w, h, p)
    decreases 7 - p
  {
    if p == 7 then [] else EncodedPass(ps[0], l, w, h, p) + EncodedPasses(ps[1..], l, w, h, p + 1)
  }

  /** The passes that were encoded are the passes that are read: all accepted, and each that has
      pixels the expansion of the rows it was made from. */
  lemma {:induction false} InterlacedRoundTrip<T>(ps: seq<PassImage>, l: Layout, w: nat, h: nat, e: Expander<T>,
                                                  rest: seq<byte>, p: nat)
    requires Proper(l) && p <= 7 && Encodable(ps, l, w, h, p)
    ensures |ps| == 7 - p
    ensures PassesAcceptable(EncodedPasses(ps, l, w, h, p) + rest, l, w, h, p)
    ensures forall q :: p <= q < 7 && !EmptyPass(q, w, h) ==>
              Passes(EncodedPasses(ps, l, w, h, p) + rest, l, w, h, e, p)[q - p] == Expanded(e, ps[q - p].rows, PassX(q, w))
    decreases 7 - p
  {
    hide PassEncodable;
    hide EncodedPass;
    hide PassAcceptable;
    hide PassAt;
    hide PassRest;
    hide Expanded;
    hide EmptyPass;
    hide PassX;
    if p < 7 {
      var tail := EncodedPasses(ps[1..], l, w, h, p + 1);
      InterlacedRoundTrip(ps[1..], l, w, h, e, rest, p + 1);
      PassRoundTrip(ps[0], l, w, h, e, p, tail + rest);
      assert EncodedPasses(ps, l, w, h, p) + rest == EncodedPass(ps[0], l, w, h, p) + (tail + rest);
    }
  }
}
