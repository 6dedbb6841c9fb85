/** PNG scanline reconstruction (section 9 of the PNG specification): two line buffers used in
    turn, a first row that never reads the line above it, and a branch-light Paeth predictor. */
module PngFilter {
  import opened Words

  // ----- the specification -----

  function Abs(x: int): nat {
    if x < 0 then -x else x
  }

  /** The Paeth predictor: the neighbour closest to `a + b - c`, preferring `a`, then `b`. */
  function PaethSpec(a: int, b: int, c: int): int {
    var p := a + b - c;
    var pa, pb, pc := Abs(p - a), Abs(p - b), Abs(p - c);
    if pa <= pb && pa <= pc then a else if pb <= pc then b else c
  }

  /** The prediction of filter type `f` from the left, upper and upper left bytes. */
  function Predict(f: nat, a: byte, b: byte, c: byte): (r: int)
    ensures 0 <= r < 256
  {
    if f == 1 then a
    else if f == 2 then b
    else if f == 3 then (a as int + b as int) / 2
    else if f == 4 then PaethSpec(a, b, c)
    else 0
  }

  /** Byte `k` of the reconstructed row. Bytes before the row and above the image are zero. */
  function ReconByte(f: nat, fb: nat, raw: seq<byte>, prior: seq<byte>, k: nat): byte
    requires 0 < fb && k < |raw| == |prior|
    decreases k
  {
    var a := if k < fb then 0 else ReconByte(f, fb, raw, prior, k - fb);
    var c := if k < fb then 0 else prior[k - fb];
    ((raw[k] as int + Predict(f, a, prior[k], c)) % 256) as byte
  }

  function ReconRow(f: nat, fb: nat, raw: seq<byte>, prior: seq<byte>): (r: seq<byte>)
    requires 0 < fb && |raw| == |prior|
    ensures |r| == |raw|
  {
    seq(|raw|, k requires 0 <= k < |raw| => ReconByte(f, fb, raw, prior, k))
  }

  /** A filtered scanline: its filter type and its bytes. */
  datatype Scanline = Scanline(f: nat, bytes: seq<byte>)

  /** All rows of an image, each reconstructed from the one above. */
  function ReconImage(fb: nat, lines: seq<Scanline>, prior: seq<byte>): (rows: seq<seq<byte>>)
    requires 0 < fb && forall i :: 0 <= i < |lines| ==> |lines[i].bytes| == |prior|
    ensures |rows| == |lines|
  {
    if lines == [] then []
    else
      var row := ReconRow(lines[0].f, fb, lines[0].bytes, prior);
      [row] + ReconImage(fb, lines[1..], row)
  }

  function Zeros(n: nat): (z: seq<byte>)
    ensures |z| == n && forall i :: 0 <= i < n ==> z[i] == 0
  {
    seq(n, i => 0)
  }

  // ----- what each filter type adds -----

  /** What reconstruction added to a byte. */
  function Difference(raw: seq<byte>, row: seq<byte>, k: nat): (d: int)
    requires k < |raw| == |row|
    ensures 0 <= d < 256 && (raw[k] as int + d) % 256 == row[k] as int
  {
    (row[k] as int - raw[k] as int) % 256
  }

  lemma DifferenceIs(raw: seq<byte>, row: seq<byte>, k: nat, d: int)
    requires k < |raw| == |row| && 0 <= d < 256 && row[k] as int == (raw[k] as int + d) % 256
    ensures Difference(raw, row, k) == d
  {
  }

  /** Section 9.2 of the PNG specification, on the rows themselves: what is added to byte `k` is
      nothing, the byte to the left, the one above, or the average of these two rounded down;
      for Paeth, whichever of left, above and above left is predicted. Left of the row
      everything counts as zero. */
  lemma FilterTypes(fb: nat, raw: seq<byte>, prior: seq<byte>, k: nat)
    requires 0 < fb && k < |raw| == |prior|
    ensures Difference(raw, ReconRow(0, fb, raw, prior), k) == 0
    ensures var row := ReconRow(1, fb, raw, prior);
            Difference(raw, row, k) == if k < fb then 0 else row[k - fb] as int
    ensures Difference(raw, ReconRow(2, fb, raw, prior), k) == prior[k] as int
    ensures var row := ReconRow(3, fb, raw, prior);
            var d, left := Difference(raw, row, k), if k < fb then 0 else row[k - fb] as int;
            2 * d <= left + prior[k] as int <= 2 * d + 1
    ensures var row := ReconRow(4, fb, raw, prior);
            var d := Difference(raw, row, k);
            if k < fb then d == prior[k] as int
            else d == PaethSpec(row[k - fb] as int, prior[k] as int, prior[k - fb] as int)
  {
    forall f: nat | f <= 4
      ensures Difference(raw, ReconRow(f, fb, raw, prior), k) ==
              Predict(f, if k < fb then 0 else ReconRow(f, fb, raw, prior)[k - fb], prior[k], if k < fb then 0 else prior[k - fb])
    {
      RowDifference(f, fb, raw, prior, k);
    }
    PaethNearest(0, prior[k] as int, 0);
  }

  lemma RowDifference(f: nat, fb: nat, raw: seq<byte>, prior: seq<byte>, k: nat)
    requires 0 < fb && k < |raw| == |prior|
    ensures Difference(raw, ReconRow(f, fb, raw, prior), k) ==
            Predict(f, if k < fb then 0 else ReconRow(f, fb, raw, prior)[k - fb], prior[k], if k < fb then 0 else prior[k - fb])
  {
    hide Predict;
    var row := ReconRow(f, fb, raw, prior);
    DifferenceIs(raw, row, k, Predict(f, if k < fb then 0 else row[k - fb], prior[k], if k < fb then 0 else prior[k - fb]));
  }

  /** The predictor is the one of left, above and above left nearest to left + above - above left;
      ties go to left, then to above (section 9.4). */
  lemma PaethNearest(a: int, b: int, c: int)
    ensures var r, p := PaethSpec(a, b, c), a + b - c;
            && (r == a || r == b || r == c)
            && Abs(p - r) <= Abs(p - a) && Abs(p - r) <= Abs(p - b) && Abs(p - r) <= Abs(p - c)
            && (Abs(p - a) == Abs(p - r) ==> r == a)
            && (Abs(p - b) == Abs(p - r) && Abs(p - a) != Abs(p - r) ==> r == b)
  {
  }

  /** Row `i` of an image is reconstructed from scanline `i` and the row above. */
  lemma {:induction false} ImageRow(fb: nat, lines: seq<Scanline>, prior: seq<byte>, i: nat)
    requires 0 < fb && i < |lines| && forall j :: 0 <= j < |lines| ==> |lines[j].bytes| == |prior|
    ensures var rows := ReconImage(fb, lines, prior);
            && (i > 0 ==> |rows[i - 1]| == |prior|)
            && rows[i] == ReconRow(lines[i].f, fb, lines[i].bytes, if i == 0 then prior else rows[i - 1])
    decreases |lines|
  {
    hide ReconRow;
    if i > 0 {
      var row := ReconRow(lines[0].f, fb, lines[0].bytes, prior);
      ImageRow(fb, lines[1..], row, i - 1);
      if i > 1 {
        assert ReconImage(fb, lines, prior)[i - 1] == ReconImage(fb, lines[1..], row)[i - 2];
      }
    }
  }

  // ----- filtering, and that reconstruction undoes it -----

  function FilterByte(f: nat, fb: nat, row: seq<byte>, prior: seq<byte>, k: nat): byte
    requires 0 < fb && k < |row| == |prior|
  {
    var a := if k < fb then 0 else row[k - fb];
    var c := if k < fb then 0 else prior[k - fb];
    ((row[k] as int - Predict(f, a, prior[k], c)) % 256) as byte
  }

  function FilterRow(f: nat, fb: nat, row: seq<byte>, prior: seq<byte>): (r: seq<byte>)
    requires 0 < fb && |row| == |prior|
    ensures |r| == |row|
  {
    seq(|row|, k requires 0 <= k < |row| => FilterByte(f, fb, row, prior, k))
  }

  lemma {:induction false} ReconUndoesFilter(f: nat, fb: nat, row: seq<byte>, prior: seq<byte>, k: nat)
    requires 0 < fb && k < |row| == |prior|
    ensures ReconByte(f, fb, FilterRow(f, fb, row, prior), prior, k) == row[k]
    decreases k
  {
    var raw := FilterRow(f, fb, row, prior);
    if k >= fb {
      ReconUndoesFilter(f, fb, row, prior, k - fb);
    }
    var a := if k < fb then 0 else row[k - fb];
    var c := if k < fb then 0 else prior[k - fb];
    var p := Predict(f, a, prior[k], c);
    assert raw[k] == FilterByte(f, fb, row, prior, k);
    assert ((row[k] as int - p) % 256 + p) % 256 == row[k];
  }

  lemma RowRoundTrip(f: nat, fb: nat, row: seq<byte>, prior: seq<byte>)
    requires 0 < fb && |row| == |prior|
    ensures ReconRow(f, fb, FilterRow(f, fb, row, prior), prior) == row
  {
    forall k | 0 <= k < |row| ensures ReconRow(f, fb, FilterRow(f, fb, row, prior), prior)[k] == row[k] {
      ReconUndoesFilter(f, fb, row, prior, k);
    }
  }

  function FilterImage(fb: nat, fs: seq<nat>, rows: seq<seq<byte>>, prior: seq<byte>): (lines: seq<Scanline>)
    requires 0 < fb && |fs| == |rows| && forall i :: 0 <= i < |rows| ==> |rows[i]| == |prior|
    ensures |lines| == |rows| && forall i :: 0 <= i < |lines| ==> |lines[i].bytes| == |prior|
  {
    if rows == [] then []
    else [Scanline(fs[0], FilterRow(fs[0], fb, rows[0], prior))] + FilterImage(fb, fs[1..], rows[1..], rows[0])
  }

  /** Whatever filter is chosen for each row, reconstruction gives back the rows. */
  lemma {:induction false} ImageRoundTrip(fb: nat, fs: seq<nat>, rows: seq<seq<byte>>, prior: seq<byte>)
    requires 0 < fb && |fs| == |rows| && forall i :: 0 <= i < |rows| ==> |rows[i]| == |prior|
    ensures ReconImage(fb, FilterImage(fb, fs, rows, prior), prior) == rows
    decreases |rows|
  {
    if rows != [] {
      var lines := FilterImage(fb, fs, rows, prior);
      RowRoundTrip(fs[0], fb, rows[0], prior);
      ImageRoundTrip(fb, fs[1..], rows[1..], rows[0]);
      assert lines[1..] == FilterImage(fb, fs[1..], rows[1..], rows[0]);
      assert rows == [rows[0]] + rows[1..];
    }
  }

  // ----- the decoder's predictor and first row -----

  /** The predictor as the decoder computes it. */
  function Paeth(a: int, b: int, c: int): int {
    var thresh := c * 3 - (a + b);
    var lo := if a < b then a else b;
    var hi := if a < b then b else a;
    var t0 := if hi <= thresh then lo else c;
    if thresh <= lo then hi else t0
  }

  /** The two predictors agree on all integers. */
  lemma PaethAgrees(a: int, b: int, c: int)
    ensures Paeth(a, b, c) == PaethSpec(a, b, c)
  {
  }

  const AVG_FIRST: nat := 5

  function FirstRowFilter(f: nat): nat
    requires f <= 4
  {
    if f == 2 then 0 else if f == 3 then AVG_FIRST else if f == 4 then 1 else f
  }

  /** What a filter of the decoder adds at byte `k`; the first pixel has nothing on its left. */
  function Added(f: nat, fb: nat, left: byte, up: byte, upLeft: byte, k: nat): int {
    if f == 1 then (if k < fb then 0 else left)
    else if f == 2 then up
    else if f == 3 then (if k < fb then up / 2 else (up as int + left as int) / 2)
    else if f == 4 then (if k < fb then up else Paeth(left, up, upLeft))
    else if f == AVG_FIRST then (if k < fb then 0 else left / 2)
    else 0
  }

  /** The decoder's filters are the specification's ... */
  lemma AddedIsPredict(f: nat, fb: nat, left: byte, up: byte, upLeft: byte, k: nat)
    requires f <= 4
    ensures Added(f, fb, left, up, upLeft, k) ==
            Predict(f, if k < fb then 0 else left, up, if k < fb then 0 else upLeft)
  {
    PaethAgrees(left, up, upLeft);
  }

  /** ... and those it substitutes on the first row do what the specification's do below a row
      of zeros, whatever the other line buffer holds. */
  lemma FirstRowAdded(f: nat, fb: nat, left: byte, up: byte, upLeft: byte, k: nat)
    requires f <= 4
    ensures Added(FirstRowFilter(f), fb, left, up, upLeft, k) == Predict(f, if k < fb then 0 else left, 0, 0)
  {
  }

  /** Byte `k` of a row with bytes `row` so far, as filter `f` of the decoder gives it. */
  function Decoded(f: nat, fb: nat, raw: seq<byte>, row: seq<byte>, prior: seq<byte>, k: nat): byte
    requires 0 < fb && k < |raw| == |prior| && k <= |row|
  {
    var left := if k < fb then 0 else row[k - fb];
    var upLeft := if k < fb then 0 else prior[k - fb];
    ((raw[k] as int + Added(f, fb, left, prior[k], upLeft, k)) % 256) as byte
  }

  /** `row` is the beginning of what filter `f` makes of `raw` below `prior`. */
  ghost predicate Unfiltered(f: nat, fb: nat, raw: seq<byte>, row: seq<byte>, prior: seq<byte>)
    requires 0 < fb && |row| <= |raw| == |prior|
  {
    forall k :: 0 <= k < |row| ==> row[k] == Decoded(f, fb, raw, row, prior, k)
  }

  /** The decoder's filters reconstruct the row. */
  lemma UnfilteredIsRecon(f: nat, fb: nat, raw: seq<byte>, row: seq<byte>, prior: seq<byte>)
    requires f <= 4 && 0 < fb && |row| == |raw| == |prior| && Unfiltered(f, fb, raw, row, prior)
    ensures row == ReconRow(f, fb, raw, prior)
  {
    forall k | 0 <= k < |row| ensures row[k] == ReconByte(f, fb, raw, prior, k) {
      UnfilteredByte(f, f, fb, raw, row, prior, prior, k);
    }
  }

  lemma UnfilteredFirstIsRecon(f: nat, fb: nat, raw: seq<byte>, row: seq<byte>, prior: seq<byte>)
    requires f <= 4 && 0 < fb && |row| == |raw| == |prior| && Unfiltered(FirstRowFilter(f), fb, raw, row, prior)
    ensures row == ReconRow(f, fb, raw, Zeros(|raw|))
  {
    forall k | 0 <= k < |row| ensures row[k] == ReconByte(f, fb, raw, Zeros(|raw|), k) {
      UnfilteredByte(f, FirstRowFilter(f), fb, raw, row, prior, Zeros(|raw|), k);
    }
  }

  lemma {:induction false} UnfilteredByte(f: nat, g: nat, fb: nat, raw: seq<byte>, row: seq<byte>, prior: seq<byte>, above: seq<byte>, k: nat)
    requires f <= 4 && 0 < fb && k < |row| == |raw| == |prior| && Unfiltered(g, fb, raw, row, prior)
    requires (g == f && above == prior) || (g == FirstRowFilter(f) && above == Zeros(|raw|))
    ensures row[k] == ReconByte(f, fb, raw, above, k)
    decreases k
  {
    if k >= fb {
      UnfilteredByte(f, g, fb, raw, row, prior, above, k - fb);
    }
    var left := if k < fb then 0 else row[k - fb];
    var upLeft := if k < fb then 0 else prior[k - fb];
    if g == f && above == prior {
      AddedIsPredict(f, fb, left, prior[k], upLeft, k);
    } else {
      FirstRowAdded(f, fb, left, prior[k], upLeft, k);
    }
    assert row[k] == Decoded(g, fb, raw, row, prior, k);
  }

  // ----- the decoder's loops -----

  /** Two lines of `nk` bytes in one buffer, at `cur` and `prior`. */
  ghost predicate TwoLines(buf: array<byte>, cur: nat, prior: nat, nk: nat) {
    buf.Length == 2 * nk && ((cur == 0 && prior == nk) || (cur == nk && prior == 0))
  }

  /** One byte of the row, by the formula of the filter for the first pixel or for the rest. */
  method NextByte(buf: array<byte>, cur: nat, prior: nat, raw: seq<byte>, f: nat, fb: nat, k: nat) returns (v: byte)
    requires TwoLines(buf, cur, prior, |raw|) && 0 < fb && k < |raw|
    ensures v == Decoded(f, fb, raw, buf[cur..cur + k], buf[prior..prior + |raw|], k)
  {
    var add: int := 0;
    if k < fb {
      if f == 2 || f == 4 {
        add := buf[prior + k];
      } else if f == 3 {
        add := buf[prior + k] as int / 2;
      }
    } else if f == 1 {
      add := buf[cur + k - fb];
    } else if f == 2 {
      add := buf[prior + k];
    } else if f == 3 {
      add := (buf[prior + k] as int + buf[cur + k - fb] as int) / 2;
    } else if f == 4 {
      add := Paeth(buf[cur + k - fb], buf[prior + k], buf[prior + k - fb]);
    } else if f == AVG_FIRST {
      add := buf[cur + k - fb] as int / 2;
    }
    v := ((raw[k] as int + add) % 256) as byte;
  }

  /** Unfilters one row in place, first pixel first. */
  method UnfilterRow(buf: array<byte>, cur: nat, prior: nat, raw: seq<byte>, f: nat, fb: nat, ghost above: seq<byte>)
    requires TwoLines(buf, cur, prior, |raw|) && 0 < fb <= |raw| == |above|
    requires buf[prior..prior + |raw|] == above
    modifies buf
    ensures buf[prior..prior + |raw|] == above
    ensures Unfiltered(f, fb, raw, buf[cur..cur + |raw|], above)
  {
    hide Decoded;
    hide Unfiltered;
    assert Unfiltered(f, fb, raw, [], above) by { NothingUnfiltered(f, fb, raw, above); }
    assert buf[cur..cur] == [];
    for k := 0 to fb
      invariant buf[prior..prior + |raw|] == above
      invariant Unfiltered(f, fb, raw, buf[cur..cur + k], above)
    {
      ghost var row := buf[cur..cur + k];
      var v := NextByte(buf, cur, prior, raw, f, fb, k);
      UnfilteredSnoc(f, fb, raw, row, above, v);
      buf[cur + k] := v;
      assert buf[cur..cur + k + 1] == row + [v];
    }
    for k := fb to |raw|
      invariant buf[prior..prior + |raw|] == above
      invariant Unfiltered(f, fb, raw, buf[cur..cur + k], above)
    {
      ghost var row := buf[cur..cur + k];
      var v := NextByte(buf, cur, prior, raw, f, fb, k);
      UnfilteredSnoc(f, fb, raw, row, above, v);
      buf[cur + k] := v;
      assert buf[cur..cur + k + 1] == row + [v];
    }
  }

  lemma NothingUnfiltered(f: nat, fb: nat, raw: seq<byte>, prior: seq<byte>)
    requires 0 < fb && |raw| == |prior|
    ensures Unfiltered(f, fb, raw, [], prior)
  {
  }

  lemma UnfilteredSnoc(f: nat, fb: nat, raw: seq<byte>, row: seq<byte>, prior: seq<byte>, v: byte)
    requires 0 < fb && |row| < |raw| == |prior| && Unfiltered(f, fb, raw, row, prior)
    requires v == Decoded(f, fb, raw, row, prior, |row|)
    ensures Unfiltered(f, fb, raw, row + [v], prior)
  {
    hide Added;
    forall k | 0 <= k < |row| + 1 ensures (row + [v])[k] == Decoded(f, fb, raw, row + [v], prior, k) {
      if k < |row| {
        assert row[k] == Decoded(f, fb, raw, row, prior, k);
      }
    }
  }

  /** The filtered scanlines in a byte stream: a type byte and `nk` bytes each. */
  function Scanlines(raw: seq<byte>, nk: nat, y: nat): (lines: seq<Scanline>)
    requires |raw| >= Bytes(nk, y)
    ensures |lines| == y && forall i :: 0 <= i < y ==> |lines[i].bytes| == nk
    decreases y
  {
    if y == 0 then [] else [Scanline(raw[0], raw[1..nk + 1])] + Scanlines(raw[nk + 1..], nk, y - 1)
  }

  /** How many bytes `y` scanlines take. */
  function Bytes(nk: nat, y: nat): nat {
    if y == 0 then 0 else nk + 1 + Bytes(nk, y - 1)
  }

  /** Scanline `i` is its type byte and the `nk` bytes after it, `i * (nk + 1)` bytes on. */
  lemma {:induction false} ScanlineAt(raw: seq<byte>, nk: nat, y: nat, i: nat)
    requires |raw| >= Bytes(nk, y) && i < y
    ensures Bytes(nk, y) == y * (nk + 1) && 0 <= i * (nk + 1) <= |raw| - (nk + 1)
    ensures var at := i * (nk + 1);
            Scanlines(raw, nk, y)[i] == Scanline(raw[at], raw[at + 1..at + 1 + nk])
    decreases y
  {
    BytesProduct(nk, y);
    BytesProduct(nk, i);
    BytesProduct(nk, y - i - 1);
    assert y * (nk + 1) == i * (nk + 1) + (nk + 1) + (y - i - 1) * (nk + 1);
    ScanStep(raw, nk, y);
    hide Scanlines;
    hide Bytes;
    if i > 0 {
      ScanlineAt(raw[nk + 1..], nk, y - 1, i - 1);
      assert i * (nk + 1) == (i - 1) * (nk + 1) + (nk + 1);
      assert Scanlines(raw, nk, y)[i] == Scanlines(raw, nk, y)[1..][i - 1];
      var at := i * (nk + 1);
      assert raw[nk + 1..][at - (nk + 1) + 1..at - (nk + 1) + 1 + nk] == raw[at + 1..at + 1 + nk];
    }
  }

  lemma {:induction false} BytesProduct(nk: nat, y: nat)
    ensures Bytes(nk, y) == y * (nk + 1)
    decreases y
  {
    if y > 0 {
      BytesProduct(nk, y - 1);
      assert y * (nk + 1) == (y - 1) * (nk + 1) + (nk + 1);
    }
  }

  /** Reconstructs an image of `y` rows of `nk` bytes with `fb` bytes to a pixel: rejected if the
      data is too short or a filter type is above 4, and otherwise what the specification says. */
  method Reconstruct(raw: seq<byte>, fb: nat, nk: nat, y: nat) returns (ok: bool, rows: seq<seq<byte>>)
    requires 0 < fb <= nk
    ensures ok <==> |raw| >= Bytes(nk, y) && forall i :: 0 <= i < y ==> Scanlines(raw, nk, y)[i].f <= 4
    ensures ok ==> rows == ReconImage(fb, Scanlines(raw, nk, y), Zeros(nk))
  {
    hide ReconImage;
    hide ReconRow;
    hide Scanlines;
    hide Bytes;
    hide RowsSoFar;
    rows := [];
    if |raw| < Bytes(nk, y) {
      return false, rows;
    }
    ghost var lines := Scanlines(raw, nk, y);
    NoRows(fb, nk, lines);
    var buf := new byte[2 * nk](_ => 0);
    var at := raw;
    for j := 0 to y
      invariant |at| >= Bytes(nk, y - j) && Scanlines(at, nk, y - j) == lines[j..]
      invariant |rows| == j && (j > 0 ==> |rows[j - 1]| == nk) && forall i :: 0 <= i < j ==> lines[i].f <= 4
      invariant RowsSoFar(fb, nk, lines, rows)
      invariant j > 0 ==> buf[Line(j - 1, nk)..Line(j - 1, nk) + nk] == rows[j - 1]
    {
      ScanStep(at, nk, y - j);
      assert lines[j..][0] == lines[j] && lines[j..][1..] == lines[j + 1..];
      var filter := at[0];
      if filter > 4 {
        return false, rows;
      }
      var row := DecodeRow(buf, Line(j, nk), Line(j + 1, nk), at[1..nk + 1], filter, fb, j == 0);
      RowsSnoc(fb, nk, lines, rows, row);
      rows := rows + [row];
      at := at[nk + 1..];
    }
    RowsAreImage(fb, nk, lines, rows, 0);
    assert lines[0..] == lines && rows[0..] == rows;
    return true, rows;
  }

  /** The row above row `i`. */
  function Above(nk: nat, rows: seq<seq<byte>>, i: nat): seq<byte>
    requires i <= |rows|
  {
    if i == 0 then Zeros(nk) else rows[i - 1]
  }

  /** Each row is reconstructed from its scanline and the row above. */
  ghost predicate RowsSoFar(fb: nat, nk: nat, lines: seq<Scanline>, rows: seq<seq<byte>>)
    requires 0 < fb && |rows| <= |lines| && forall i :: 0 <= i < |lines| ==> |lines[i].bytes| == nk
  {
    forall i :: 0 <= i < |rows| ==> RowIsRecon(fb, nk, lines[i], rows, i)
  }

  ghost predicate RowIsRecon(fb: nat, nk: nat, line: Scanline, rows: seq<seq<byte>>, i: nat)
    requires 0 < fb && i < |rows| && |line.bytes| == nk
  {
    && |rows[i]| == nk && |Above(nk, rows, i)| == nk
    && rows[i] == ReconRow(line.f, fb, line.bytes, Above(nk, rows, i))
  }

  lemma {:induction false} RowsAreImage(fb: nat, nk: nat, lines: seq<Scanline>, rows: seq<seq<byte>>, j: nat)
    requires 0 < fb && j <= |rows| == |lines| && forall i :: 0 <= i < |lines| ==> |lines[i].bytes| == nk
    requires RowsSoFar(fb, nk, lines, rows) && |Above(nk, rows, j)| == nk
    ensures rows[j..] == ReconImage(fb, lines[j..], Above(nk, rows, j))
    decreases |rows| - j
  {
    if j < |rows| {
      assert RowIsRecon(fb, nk, lines[j], rows, j);
      RowsAreImage(fb, nk, lines, rows, j + 1);
      assert lines[j..][1..] == lines[j + 1..] && rows[j..] == [rows[j]] + rows[j + 1..];
    }
  }

  lemma NoRows(fb: nat, nk: nat, lines: seq<Scanline>)
    requires 0 < fb && forall i :: 0 <= i < |lines| ==> |lines[i].bytes| == nk
    ensures RowsSoFar(fb, nk, lines, [])
  {
  }

  lemma RowsSnoc(fb: nat, nk: nat, lines: seq<Scanline>, rows: seq<seq<byte>>, row: seq<byte>)
    requires 0 < fb && |rows| < |lines| && forall i :: 0 <= i < |lines| ==> |lines[i].bytes| == nk
    requires RowsSoFar(fb, nk, lines, rows) && |Above(nk, rows, |rows|)| == nk
    requires row == ReconRow(lines[|rows|].f, fb, lines[|rows|].bytes, Above(nk, rows, |rows|))
    ensures RowsSoFar(fb, nk, lines, rows + [row])
  {
    var rows' := rows + [row];
    forall i | 0 <= i < |rows'| ensures RowIsRecon(fb, nk, lines[i], rows', i) {
      if i < |rows| {
        assert RowIsRecon(fb, nk, lines[i], rows, i);
      }
      assert Above(nk, rows', i) == Above(nk, rows, i);
    }
  }

  lemma ScanStep(at: seq<byte>, nk: nat, n: nat)
    requires n > 0 && |at| >= Bytes(nk, n)
    ensures |at| >= nk + 1 && |at| - (nk + 1) >= Bytes(nk, n - 1)
    ensures Scanlines(at, nk, n)[0] == Scanline(at[0], at[1..nk + 1])
    ensures Scanlines(at, nk, n)[1..] == Scanlines(at[nk + 1..], nk, n - 1)
  {
  }

  /** Where row `j` is decoded: the two lines take turns. */
  function Line(j: nat, nk: nat): nat {
    if j % 2 == 0 then 0 else nk
  }

  method DecodeRow(buf: array<byte>, cur: nat, prior: nat, raw: seq<byte>, filter: nat, fb: nat, isFirst: bool) returns (row: seq<byte>)
    requires TwoLines(buf, cur, prior, |raw|) && 0 < fb <= |raw| && filter <= 4
    modifies buf
    ensures buf[cur..cur + |raw|] == row
    ensures row == ReconRow(filter, fb, raw, if isFirst then Zeros(|raw|) else old(buf[prior..prior + |raw|]))
  {
    ghost var above := buf[prior..prior + |raw|];
    var f := if isFirst then FirstRowFilter(filter) else filter;
    UnfilterRow(buf, cur, prior, raw, f, fb, above);
    row := buf[cur..cur + |raw|];
    if isFirst {
      UnfilteredFirstIsRecon(filter, fb, raw, row, above);
    } else {
      UnfilteredIsRecon(filter, fb, raw, row, above);
    }
  }
}
