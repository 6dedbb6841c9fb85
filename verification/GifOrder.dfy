/** The order in which GIF pixels arrive (appendix E of GIF89a): rows top to bottom, or in four
    interlaced passes; and what painting a list of colour indices in that order does. */
module GifOrder {
  import opened Words
  import opened Arith

  /** Rows `from`, `from + step`, ... below `h`. */
  function Pass(from: nat, step: nat, h: nat): seq<nat>
    requires step > 0
    decreases h - from
  {
    if from >= h then [] else [from] + Pass(from + step, step, h)
  }

  /** The passes still to come after `parse` more restarts: every `2^parse` rows from
      `2^(parse-1)`, then the finer ones. */
  function Rest(parse: nat, h: nat): seq<nat> {
    if parse == 0 then [] else Pass(Pow2(parse - 1), Pow2(parse), h) + Rest(parse - 1, h)
  }

  /** Every row of an image of height `h`, in order of arrival. */
  function RowOrder(interlaced: bool, h: nat): seq<nat> {
    if interlaced then Pass(0, 8, h) + Pass(4, 8, h) + Pass(2, 4, h) + Pass(1, 2, h)
    else Pass(0, 1, h)
  }

  lemma RowOrderIsPasses(interlaced: bool, h: nat)
    ensures RowOrder(interlaced, h) == if interlaced then Pass(0, 8, h) + Rest(3, h) else Pass(0, 1, h) + Rest(0, h)
  {
    assert Pow2(3) == 8 && Pow2(2) == 4 && Pow2(1) == 2 && Pow2(0) == 1;
    assert Rest(1, h) == Pass(1, 2, h) + Rest(0, h) == Pass(1, 2, h);
    assert Rest(2, h) == Pass(2, 4, h) + Rest(1, h);
    assert Rest(3, h) == Pass(4, 8, h) + Rest(2, h);
  }

  // ----- every row exactly once -----

  predicate Injective<T(==)>(s: seq<T>) {
    forall i, j :: 0 <= i < j < |s| ==> s[i] != s[j]
  }

  /** `r` is in the arithmetic progression from `from` by `step`. */
  ghost predicate Progression(r: nat, from: nat, step: nat) {
    exists k: nat :: r == from + Times(k, step)
  }

  function Times(k: nat, step: nat): nat {
    if k == 0 then 0 else step + Times(k - 1, step)
  }

  lemma {:induction false} PassMembers(from: nat, step: nat, h: nat)
    requires step > 0
    ensures Injective(Pass(from, step, h))
    ensures forall r :: r in Pass(from, step, h) ==> from <= r < h && Progression(r, from, step)
    decreases h - from
  {
    if from < h {
      var tail := Pass(from + step, step, h);
      PassMembers(from + step, step, h);
      assert from == from + Times(0, step);
      assert Progression(from, from, step);
      forall r | r in tail ensures Progression(r, from, step) {
        var k: nat :| r == from + step + Times(k, step);
        assert r == from + Times(k + 1, step);
      }
      InjectiveConcat([from], tail);
    }
  }

  lemma {:induction false} PassReaches(from: nat, step: nat, h: nat, k: nat)
    requires step > 0 && from + Times(k, step) < h
    ensures from + Times(k, step) in Pass(from, step, h)
    decreases k
  {
    if k > 0 {
      PassReaches(from + step, step, h, k - 1);
    }
  }

  lemma {:induction false} TimesRemainder(k: nat)
    ensures Times(k, 8) == 8 * k && Times(k, 4) == 4 * k && Times(k, 2) == 2 * k && Times(k, 1) == k
  {
    if k > 0 {
      TimesRemainder(k - 1);
    }
  }

  lemma ProgressionRemainder(r: nat, from: nat, step: nat)
    requires step in {1, 2, 4, 8} && from < step && Progression(r, from, step)
    ensures r % step == from
  {
    var k: nat :| r == from + Times(k, step);
    TimesRemainder(k);
    if step == 8 {
      assert r == from + 8 * k;
    } else if step == 4 {
      assert r == from + 4 * k;
    } else if step == 2 {
      assert r == from + 2 * k;
    }
  }

  /** The rows in arrival order are a permutation of the rows of the image. */
  lemma RowOrderIsPermutation(interlaced: bool, h: nat)
    ensures Injective(RowOrder(interlaced, h))
    ensures forall r: nat :: r in RowOrder(interlaced, h) <==> r < h
  {
    if interlaced {
      InterlacedRows(h);
    } else {
      PassMembers(0, 1, h);
      forall r: nat | r < h ensures r in Pass(0, 1, h) {
        TimesRemainder(r);
        PassReaches(0, 1, h, r);
      }
    }
  }

  lemma InterlacedRows(h: nat)
    ensures Injective(RowOrder(true, h))
    ensures forall r: nat :: r in RowOrder(true, h) <==> r < h
  {
    var a, b, c, d := Pass(0, 8, h), Pass(4, 8, h), Pass(2, 4, h), Pass(1, 2, h);
    PassMembers(0, 8, h);
    PassMembers(4, 8, h);
    PassMembers(2, 4, h);
    PassMembers(1, 2, h);
    forall r | r in a ensures r % 8 == 0 { ProgressionRemainder(r, 0, 8); }
    forall r | r in b ensures r % 8 == 4 { ProgressionRemainder(r, 4, 8); }
    forall r | r in c ensures r % 4 == 2 { ProgressionRemainder(r, 2, 4); }
    forall r | r in d ensures r % 2 == 1 { ProgressionRemainder(r, 1, 2); }
    InjectiveConcat(a, b);
    InjectiveConcat(a + b, c);
    InjectiveConcat(a + b + c, d);
    forall r: nat | r < h ensures r in a + b + c + d {
      RowInSomePass(r, h);
    }
  }

  lemma RowInSomePass(r: nat, h: nat)
    requires r < h
    ensures r in Pass(0, 8, h) || r in Pass(4, 8, h) || r in Pass(2, 4, h) || r in Pass(1, 2, h)
  {
    hide Pass;
    if r % 8 == 0 {
      PassHas(0, 8, h, r / 8, r);
    } else if r % 8 == 4 {
      PassHas(4, 8, h, r / 8, r);
    } else if r % 4 == 2 {
      PassHas(2, 4, h, r / 4, r);
    } else {
      OddRow(r);
      PassHas(1, 2, h, r / 2, r);
    }
  }

  lemma OddRow(r: nat)
    requires r % 8 != 0 && r % 8 != 4 && r % 4 != 2
    ensures r == 1 + 2 * (r / 2)
  {
    HalfRemainder(r, 4);
    HalfRemainder(r, 2);
  }

  lemma PassHas(from: nat, step: nat, h: nat, k: nat, r: nat)
    requires step in {2, 4, 8} && r < h
    requires r == from + (if step == 2 then 2 * k else if step == 4 then 4 * k else 8 * k)
    ensures r in Pass(from, step, h)
  {
    TimesRemainder(k);
    PassReaches(from, step, h, k);
  }

  lemma InjectiveConcat<T>(a: seq<T>, b: seq<T>)
    requires Injective(a) && Injective(b) && forall x :: x in a ==> x !in b
    ensures Injective(a + b)
  {
    forall i, j | 0 <= i < j < |a + b| ensures (a + b)[i] != (a + b)[j] {
      if i < |a| <= j {
        assert a[i] in a && b[j - |a|] in b;
      }
    }
  }

  // ----- pixel positions -----

  /** Where row `row` starts, with `line` pixels to a row. */
  function RowStart(row: nat, line: nat): nat {
    row * line
  }

  /** The position of column `x` of row `row`. */
  function PixelAt(base: nat, line: nat, row: nat, x: nat): nat {
    base + RowStart(row, line) + x
  }

  /** Positions of one row, from column `x` on. */
  function RowPixels(base: nat, line: nat, row: nat, x: nat, w: nat): seq<nat>
    decreases w - x
  {
    if x >= w then [] else [PixelAt(base, line, row, x)] + RowPixels(base, line, row, x + 1, w)
  }

  /** Positions of whole rows, in the given order. */
  function Pixels(base: nat, line: nat, rows: seq<nat>, w: nat): seq<nat> {
    if rows == [] then [] else RowPixels(base, line, rows[0], 0, w) + Pixels(base, line, rows[1..], w)
  }

  /** Positions identify row and column when a row of the image fits a line. */
  lemma PositionInjective(line: nat, r: nat, x: nat, s: nat, y: nat)
    requires x < line && y < line && r * line + x == s * line + y
    ensures r == s && x == y
  {
    DivModUnique(r * line + x, line, r, x);
    DivModUnique(s * line + y, line, s, y);
  }

  lemma {:induction false} RowPixelFrom(base: nat, line: nat, row: nat, x: nat, w: nat, p: nat) returns (c: nat)
    requires p in RowPixels(base, line, row, x, w)
    ensures x <= c < w && p == PixelAt(base, line, row, c)
    decreases w - x
  {
    if p == PixelAt(base, line, row, x) {
      c := x;
    } else {
      c := RowPixelFrom(base, line, row, x + 1, w, p);
    }
  }

  lemma {:induction false} RowPixelIn(base: nat, line: nat, row: nat, x: nat, w: nat, c: nat)
    requires x <= c < w
    ensures PixelAt(base, line, row, c) in RowPixels(base, line, row, x, w)
    decreases w - x
  {
    if c > x {
      RowPixelIn(base, line, row, x + 1, w, c);
    }
  }

  lemma {:induction false} RowPixelsInjective(base: nat, line: nat, row: nat, x: nat, w: nat)
    ensures Injective(RowPixels(base, line, row, x, w))
    ensures |RowPixels(base, line, row, x, w)| == if x >= w then 0 else w - x
    decreases w - x
  {
    if x < w {
      RowPixelsInjective(base, line, row, x + 1, w);
      var head, tail := [PixelAt(base, line, row, x)], RowPixels(base, line, row, x + 1, w);
      if head[0] in tail {
        var c := RowPixelFrom(base, line, row, x + 1, w, head[0]);
      }
      InjectiveConcat(head, tail);
    }
  }

  /** Every position comes from some column of some listed row ... */
  lemma {:induction false} PixelFrom(base: nat, line: nat, rows: seq<nat>, w: nat, p: nat) returns (r: nat, c: nat)
    requires p in Pixels(base, line, rows, w)
    ensures r in rows && c < w && p == PixelAt(base, line, r, c)
  {
    if p in RowPixels(base, line, rows[0], 0, w) {
      r := rows[0];
      c := RowPixelFrom(base, line, r, 0, w, p);
    } else {
      r, c := PixelFrom(base, line, rows[1..], w, p);
    }
  }

  /** ... and every column of every listed row is visited. */
  lemma {:induction false} PixelIn(base: nat, line: nat, rows: seq<nat>, w: nat, r: nat, c: nat)
    requires r in rows && c < w
    ensures PixelAt(base, line, r, c) in Pixels(base, line, rows, w)
  {
    if r == rows[0] {
      RowPixelIn(base, line, r, 0, w, c);
    } else {
      PixelIn(base, line, rows[1..], w, r, c);
    }
  }

  /** Distinct rows give distinct positions, `w` for each row. */
  lemma {:induction false} PixelsInjective(base: nat, line: nat, rows: seq<nat>, w: nat)
    requires w <= line && Injective(rows)
    ensures Injective(Pixels(base, line, rows, w))
  {
    if rows != [] {
      var r0, tail := rows[0], rows[1..];
      PixelsInjective(base, line, tail, w);
      RowPixelsInjective(base, line, r0, 0, w);
      var head := RowPixels(base, line, r0, 0, w);
      forall p | p in head ensures p !in Pixels(base, line, tail, w) {
        if p in Pixels(base, line, tail, w) {
          var i := RowPixelFrom(base, line, r0, 0, w, p);
          var r, x := PixelFrom(base, line, tail, w, p);
          PositionInjective(line, r0, i, r, x);
        }
      }
      InjectiveConcat(head, Pixels(base, line, tail, w));
    }
  }

  lemma {:induction false} PassAt(from: nat, step: nat, h: nat, n: nat)
    requires step in {1, 2, 4, 8} && (n == 0 || from + (n - 1) * step < h) && from + n * step >= h
    ensures |Pass(from, step, h)| == n && forall i :: 0 <= i < n ==> Pass(from, step, h)[i] == from + i * step
    decreases n
  {
    if n > 0 {
      PassAt(from + step, step, h, n - 1);
    }
  }

  /** The order of appendix E: every eighth row from 0, every eighth from 4, every fourth from 2 and
      every second from 1; without interlacing, as they are numbered. */
  lemma ArrivalOrder(h: nat)
    ensures |RowOrder(false, h)| == h && forall i :: 0 <= i < h ==> RowOrder(false, h)[i] == i
    ensures var r := RowOrder(true, h);
            var a, b, c, d := (h + 7) / 8, (h + 3) / 8, (h + 1) / 4, h / 2;
            && |r| == a + b + c + d
            && (forall i :: 0 <= i < a ==> r[i] == 8 * i)
            && (forall i :: 0 <= i < b ==> r[a + i] == 8 * i + 4)
            && (forall i :: 0 <= i < c ==> r[a + b + i] == 4 * i + 2)
            && (forall i :: 0 <= i < d ==> r[a + b + c + i] == 2 * i + 1)
  {
    PassAt(0, 1, h, h);
    PassAt(0, 8, h, (h + 7) / 8);
    PassAt(4, 8, h, (h + 3) / 8);
    PassAt(2, 4, h, (h + 1) / 4);
    PassAt(1, 2, h, h / 2);
    hide Pass;
  }

  /** Within a row positions go from left to right, and rows follow in the order given. */
  lemma {:induction false} PixelsAt(base: nat, line: nat, rows: seq<nat>, w: nat, i: nat, x: nat)
    requires i < |rows| && x < w
    ensures 0 <= i * w + x < |Pixels(base, line, rows, w)|
    ensures Pixels(base, line, rows, w)[i * w + x] == base + rows[i] * line + x
    decreases |rows|
  {
    hide RowPixels;
    RowPixelsAt(base, line, rows[0], 0, w, if i == 0 then x else 0);
    if i > 0 {
      PixelsAt(base, line, rows[1..], w, i - 1, x);
      assert i * w == (i - 1) * w + w;
    }
  }

  lemma {:induction false} RowPixelsAt(base: nat, line: nat, row: nat, x: nat, w: nat, i: nat)
    requires x + i < w
    ensures |RowPixels(base, line, row, x, w)| == w - x
    ensures RowPixels(base, line, row, x, w)[i] == base + row * line + x + i
    decreases w - x
  {
    if x + 1 < w {
      RowPixelsAt(base, line, row, x + 1, w, if i == 0 then 0 else i - 1);
    }
  }

  /** Every pixel of a `w` by `h` rectangle is visited exactly once, and nothing else is. */
  lemma VisitsEachPixelOnce(interlaced: bool, base: nat, line: nat, w: nat, h: nat)
    requires w <= line
    ensures var ps := Pixels(base, line, RowOrder(interlaced, h), w);
            && Injective(ps)
            && (forall r: nat, c: nat :: r < h && c < w ==> PixelAt(base, line, r, c) in ps)
            && (forall p :: p in ps ==> exists r: nat, c: nat :: r < h && c < w && p == PixelAt(base, line, r, c))
  {
    var rows := RowOrder(interlaced, h);
    var ps := Pixels(base, line, rows, w);
    RowOrderIsPermutation(interlaced, h);
    PixelsInjective(base, line, rows, w);
    forall r: nat, c: nat | r < h && c < w ensures PixelAt(base, line, r, c) in ps {
      PixelIn(base, line, rows, w, r, c);
    }
    forall p | p in ps ensures exists r: nat, c: nat :: r < h && c < w && p == PixelAt(base, line, r, c) {
      var r, c := PixelFrom(base, line, rows, w, p);
    }
  }

  // ----- painting -----

  datatype Pixel = Pixel(r: byte, g: byte, b: byte, a: byte)

  /** A palette entry overwrites a pixel unless it is transparent. */
  function Mix(was: Pixel, c: Pixel): Pixel {
    if c.a > 128 then c else was
  }

  /** Paints colours at positions, one for one, until either runs out. */
  function Paint(image: seq<Pixel>, ps: seq<nat>, palette: seq<Pixel>, symbols: seq<byte>): (r: seq<Pixel>)
    requires |palette| == 256 && forall i :: 0 <= i < |ps| ==> ps[i] < |image|
    ensures |r| == |image|
    decreases |ps|
  {
    if ps == [] || symbols == [] then image
    else Paint(image[ps[0] := Mix(image[ps[0]], palette[symbols[0]])], ps[1..], palette, symbols[1..])
  }

  /** Position `q` is among the first `m`. */
  ghost predicate Among(ps: seq<nat>, m: nat, q: nat) {
    exists k :: 0 <= k < |ps| && k < m && ps[k] == q
  }

  /** With distinct positions, each painted pixel gets its own colour and no other changes. */
  lemma {:induction false} PaintResult(image: seq<Pixel>, ps: seq<nat>, palette: seq<Pixel>, symbols: seq<byte>)
    requires |palette| == 256 && (forall i :: 0 <= i < |ps| ==> ps[i] < |image|) && Injective(ps)
    ensures var r := Paint(image, ps, palette, symbols);
            && (forall k :: 0 <= k < |ps| && k < |symbols| ==>
                              r[ps[k]] == if palette[symbols[k]].a > 128 then palette[symbols[k]] else image[ps[k]])
            && (forall q: nat :: q < |image| && !Among(ps, |symbols|, q) ==> r[q] == image[q])
    decreases |ps|
  {
    if ps != [] && symbols != [] {
      var image' := image[ps[0] := Mix(image[ps[0]], palette[symbols[0]])];
      var ps', symbols' := ps[1..], symbols[1..];
      PaintResult(image', ps', palette, symbols');
      var r := Paint(image', ps', palette, symbols');
      assert r == Paint(image, ps, palette, symbols);
      assert !Among(ps', |symbols'|, ps[0]);
      forall k | 0 <= k < |ps| && k < |symbols| ensures r[ps[k]] == Mix(image[ps[k]], palette[symbols[k]]) {
        if k > 0 {
          assert ps'[k - 1] == ps[k] && symbols'[k - 1] == symbols[k];
        }
      }
      forall q: nat | q < |image| && !Among(ps, |symbols|, q) ensures r[q] == image[q] {
        assert ps[0] != q;
        assert forall k :: 0 <= k < |ps'| ==> ps'[k] == ps[k + 1];
        assert !Among(ps', |symbols'|, q);
      }
    }
  }

  /** One more colour paints one more position. */
  lemma {:induction false} PaintAppend(image: seq<Pixel>, ps: seq<nat>, palette: seq<Pixel>, symbols: seq<byte>, s: byte)
    requires |palette| == 256 && forall i :: 0 <= i < |ps| ==> ps[i] < |image|
    ensures var r := Paint(image, ps, palette, symbols);
            Paint(image, ps, palette, symbols + [s]) ==
            if |symbols| < |ps| then r[ps[|symbols|] := Mix(r[ps[|symbols|]], palette[s])] else r
    decreases |ps|
  {
    if ps != [] {
      if symbols == [] {
        assert ([] + [s])[1..] == [];
        assert Paint(image[ps[0] := Mix(image[ps[0]], palette[s])], ps[1..], palette, []) == image[ps[0] := Mix(image[ps[0]], palette[s])];
      } else {
        assert (symbols + [s])[1..] == symbols[1..] + [s];
        PaintAppend(image[ps[0] := Mix(image[ps[0]], palette[symbols[0]])], ps[1..], palette, symbols[1..], s);
      }
    }
  }
}
