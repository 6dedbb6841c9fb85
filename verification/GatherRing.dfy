/** Vertical resampling by gathering: a ring of decoded scanlines, filled in order and
    overwritten from the oldest, feeds weighted sums of up to eight scanlines at a time.
    Weights and samples are exact reals. */
module GatherRing {
  import opened Arith
  import opened Sampling

  /** The decoded (and horizontally resampled) scanlines, all of one width. */
  type Lines = int -> seq<real>

  ghost predicate Uniform(line: Lines, width: nat) {
    forall n :: |line(n)| == width
  }

  /** The weighted sum of `k` scanlines from `n0` on, at sample `i`. */
  ghost function Convolve(line: Lines, width: nat, coeffs: seq<real>, n0: int, k: nat, i: nat): real
    requires Uniform(line, width) && k <= |coeffs| && i < width
  {
    if k == 0 then 0.0 else Convolve(line, width, coeffs, n0, k - 1, i) + line(n0 + k - 1)[i] * coeffs[k - 1]
  }

  predicate NearOne(c: real) {
    1.0 - 0.000001 <= c <= 1.0 + 0.000001
  }

  /** One output row: the convolution over all contributors, except that a single contributor
      with a weight within a millionth of one is copied unscaled. */
  ghost predicate IsOutputRow(row: seq<real>, line: Lines, width: nat, c: Contributors, coeffs: seq<real>)
    requires Uniform(line, width) && c.n0 <= c.n1 && c.n1 - c.n0 + 1 <= |coeffs|
  {
    && |row| == width
    && if c.n0 == c.n1 && NearOne(coeffs[0]) then row == line(c.n0)
       else forall i :: 0 <= i < width ==> row[i] == Convolve(line, width, coeffs, c.n0, c.n1 - c.n0 + 1, i)
  }

  // ----- what an output row is -----

  /** A weight counts as one within a millionth of it. */
  lemma NearOneRange(c: real)
    ensures NearOne(c) <==> 0.999999 <= c <= 1.000001
  {
  }

  lemma {:induction false} ConvolveNothing(line: Lines, width: nat, coeffs: seq<real>, n0: int, k: nat, i: nat)
    requires Uniform(line, width) && k <= |coeffs| && i < width
    requires forall m :: n0 <= m < n0 + k ==> line(m)[i] == 0.0
    ensures Convolve(line, width, coeffs, n0, k, i) == 0.0
  {
    if k > 0 {
      ConvolveNothing(line, width, coeffs, n0, k - 1, i);
    }
  }

  lemma {:induction false} ConvolveImpulse(line: Lines, width: nat, coeffs: seq<real>, n0: int, k: nat, i: nat, j: nat)
    requires Uniform(line, width) && k <= |coeffs| && i < width && j < k
    requires line(n0 + j)[i] == 1.0 && forall m :: n0 <= m < n0 + k && m != n0 + j ==> line(m)[i] == 0.0
    ensures Convolve(line, width, coeffs, n0, k, i) == coeffs[j]
  {
    if j < k - 1 {
      ConvolveImpulse(line, width, coeffs, n0, k - 1, i, j);
    } else {
      ConvolveNothing(line, width, coeffs, n0, k - 1, i);
    }
  }

  lemma {:induction false} ConvolveLinear(line: Lines, f: Lines, g: Lines, width: nat, coeffs: seq<real>, n0: int, k: nat,
                                          i: nat, s: real, t: real)
    requires Uniform(line, width) && Uniform(f, width) && Uniform(g, width) && k <= |coeffs| && i < width
    requires forall m :: n0 <= m < n0 + k ==> line(m)[i] == s * f(m)[i] + t * g(m)[i]
    ensures Convolve(line, width, coeffs, n0, k, i) ==
            s * Convolve(f, width, coeffs, n0, k, i) + t * Convolve(g, width, coeffs, n0, k, i)
  {
    if k > 0 {
      ConvolveLinear(line, f, g, width, coeffs, n0, k - 1, i, s, t);
      var a, b, c := f(n0 + k - 1)[i], g(n0 + k - 1)[i], coeffs[k - 1];
      LinearStep(s, t, Convolve(f, width, coeffs, n0, k - 1, i), Convolve(g, width, coeffs, n0, k - 1, i), a, b, c);
    }
  }

  lemma LinearStep(s: real, t: real, x: real, y: real, a: real, b: real, c: real)
    ensures s * x + t * y + (s * a + t * b) * c == s * (x + a * c) + t * (y + b * c)
  {
    assert (s * a + t * b) * c == s * (a * c) + t * (b * c);
    assert s * (x + a * c) == s * x + s * (a * c);
    assert t * (y + b * c) == t * y + t * (b * c);
  }

  /** Impulse: where only contributor `j` shows, and shows one, a scaled output row shows that
      contributor's own weight. */
  lemma RowImpulse(row: seq<real>, line: Lines, width: nat, c: Contributors, coeffs: seq<real>, i: nat, j: nat)
    requires Uniform(line, width) && c.n0 <= c.n1 && c.n1 - c.n0 + 1 <= |coeffs| && i < width && j <= c.n1 - c.n0
    requires IsOutputRow(row, line, width, c, coeffs) && (c.n0 < c.n1 || !(0.999999 <= coeffs[0] <= 1.000001))
    requires line(c.n0 + j)[i] == 1.0 && forall m :: c.n0 <= m <= c.n1 && m != c.n0 + j ==> line(m)[i] == 0.0
    ensures row[i] == coeffs[j]
  {
    ConvolveImpulse(line, width, coeffs, c.n0, c.n1 - c.n0 + 1, i, j);
  }

  /** Linearity: combined scanlines give the combined output. Together with impulse, this says
      that each scanline counts with its own weight, and with nothing else. */
  lemma RowLinear(row: seq<real>, line: Lines, fRow: seq<real>, f: Lines, gRow: seq<real>, g: Lines, width: nat,
                  c: Contributors, coeffs: seq<real>, i: nat, s: real, t: real)
    requires Uniform(line, width) && Uniform(f, width) && Uniform(g, width)
    requires c.n0 <= c.n1 && c.n1 - c.n0 + 1 <= |coeffs| && i < width
    requires IsOutputRow(row, line, width, c, coeffs) && (c.n0 < c.n1 || !(0.999999 <= coeffs[0] <= 1.000001))
    requires IsOutputRow(fRow, f, width, c, coeffs) && IsOutputRow(gRow, g, width, c, coeffs)
    requires forall m :: c.n0 <= m <= c.n1 ==> line(m)[i] == s * f(m)[i] + t * g(m)[i]
    ensures row[i] == s * fRow[i] + t * gRow[i]
  {
    ConvolveLinear(line, f, g, width, coeffs, c.n0, c.n1 - c.n0 + 1, i, s, t);
  }

  /** A single contributor whose weight counts as one is copied. */
  lemma RowCopied(row: seq<real>, line: Lines, width: nat, c: Contributors, coeffs: seq<real>)
    requires Uniform(line, width) && c.n0 == c.n1 && 1 <= |coeffs| && 0.999999 <= coeffs[0] <= 1.000001
    ensures IsOutputRow(row, line, width, c, coeffs) <==> row == line(c.n0)
  {
    NearOneRange(coeffs[0]);
  }

  // ----- which scanlines the ring holds -----

  /** The last scanline loaded after the first `y` rows; `f0 - 1` for none. */
  function Last(cs: seq<Contributors>, f0: int, y: nat): int
    requires y <= |cs|
  {
    if y == 0 then f0 - 1 else
      var l := Last(cs, f0, y - 1);
      if cs[y - 1].n1 > l then cs[y - 1].n1 else l
  }

  /** The oldest scanline still held after the first `y` rows. */
  function First(cs: seq<Contributors>, f0: int, entries: nat, y: nat): int
    requires y <= |cs|
  {
    var l := Last(cs, f0, y);
    if l - f0 + 1 <= entries then f0 else l - entries + 1
  }

  /** Scanline `s` is in the ring once row `y` has loaded what it needs. */
  predicate Held(cs: seq<Contributors>, f0: int, entries: nat, y: nat, s: int)
    requires y < |cs|
  {
    First(cs, f0, entries, y + 1) <= s <= Last(cs, f0, y + 1)
  }

  /** Row `y` finds all its scanlines in a ring of `entries`. */
  ghost predicate Resident(cs: seq<Contributors>, f0: int, entries: nat, y: nat)
    requires y < |cs|
  {
    forall s :: cs[y].n0 <= s <= cs[y].n1 ==> Held(cs, f0, entries, y, s)
  }

  /** What a caller can check: no row starts before the first one loaded, nor so far behind the
      furthest row so far that the ring has moved on. */
  ghost predicate WithinReach(cs: seq<Contributors>, f0: int, entries: nat, y: nat)
    requires y < |cs|
  {
    cs[y].n0 >= f0 && forall j :: 0 <= j <= y ==> cs[j].n1 - cs[y].n0 < entries
  }

  lemma {:induction false} LastIsMaximum(cs: seq<Contributors>, f0: int, y: nat)
    requires y <= |cs|
    ensures Last(cs, f0, y) >= f0 - 1
    ensures forall j :: 0 <= j < y ==> cs[j].n1 <= Last(cs, f0, y)
    ensures Last(cs, f0, y) == f0 - 1 || exists j :: 0 <= j < y && cs[j].n1 == Last(cs, f0, y)
  {
    if y > 0 {
      LastIsMaximum(cs, f0, y - 1);
    }
  }

  /** The ring holds a row's scanlines exactly when the row is within reach. */
  lemma ResidentIffWithinReach(cs: seq<Contributors>, f0: int, entries: nat, y: nat)
    requires y < |cs| && cs[y].n0 <= cs[y].n1 && entries > 0
    ensures Resident(cs, f0, entries, y) <==> WithinReach(cs, f0, entries, y)
  {
    LastIsMaximum(cs, f0, y + 1);
    var l := Last(cs, f0, y + 1);
    assert cs[y].n1 <= l;
    if Resident(cs, f0, entries, y) {
      assert Held(cs, f0, entries, y, cs[y].n0);
    }
    if WithinReach(cs, f0, entries, y) {
      assert l - cs[y].n0 < entries;
    }
  }

  // ----- slots -----

  function Slot(s: int, f0: int, entries: nat): nat
    requires entries > 0 && s >= f0
  {
    (s - f0) % entries
  }

  /** Scanlines less than a ring apart use different slots. */
  lemma SlotsDiffer(s: int, t: int, f0: int, entries: nat)
    requires entries > 0 && f0 <= s < t < s + entries
    ensures Slot(s, f0, entries) != Slot(t, f0, entries)
  {
    if Slot(s, f0, entries) == Slot(t, f0, entries) {
      SameRemainder(s - f0, t - f0, entries);
    }
  }

  class Split {
    const line: Lines
    const width: nat
    const ring: array<seq<real>>
    const output: array<real>
    var beginIndex: nat
    var firstScanline: int
    var lastScanline: int

    constructor (line: Lines, width: nat, entries: nat)
      ensures this.line == line && this.width == width
      ensures fresh(ring) && ring.Length == entries && fresh(output) && output.Length == width
    {
      this.line, this.width := line, width;
      ring := new seq<real>[entries](_ => []);
      output := new real[width](_ => 0.0);
    }

    /** Every scanline between the oldest and the newest sits in its slot. */
    ghost predicate Holds(f0: int)
      reads this, ring
    {
      && ring.Length > 0 && Uniform(line, width) && output.Length == width
      && f0 <= firstScanline && beginIndex == firstScanline - f0
      && firstScanline - 1 <= lastScanline < firstScanline + ring.Length
      && forall s :: firstScanline <= s <= lastScanline ==> ring[Slot(s, f0, ring.Length)] == line(s)
    }

    /** The slot of a scanline, counted from the oldest one held. */
    method GetScanline(s: int, ghost f0: int) returns (r: seq<real>)
      requires Holds(f0) && firstScanline <= s <= lastScanline
      ensures r == line(s)
    {
      r := ring[(beginIndex + (s - firstScanline)) % ring.Length];
    }

    /** Decodes one more scanline, over the oldest if the ring is full. */
    method LoadNext(ghost f0: int)
      requires Holds(f0)
      modifies this, ring
      ensures Holds(f0) && lastScanline == old(lastScanline) + 1
      ensures firstScanline == if old(lastScanline - firstScanline) + 1 == ring.Length then old(firstScanline) + 1 else old(firstScanline)
    {
      if lastScanline - firstScanline + 1 == ring.Length {
        firstScanline := firstScanline + 1;
        beginIndex := beginIndex + 1;
      }
      lastScanline := lastScanline + 1;
      ghost var n := lastScanline;
      forall s | firstScanline <= s < n ensures Slot(s, f0, ring.Length) != Slot(n, f0, ring.Length) {
        SlotsDiffer(s, n, f0, ring.Length);
      }
      ring[(beginIndex + (lastScanline - firstScanline)) % ring.Length] := line(lastScanline);
    }

    /** Loads scanlines up to `n1`. */
    method LoadUpTo(n1: int, ghost f0: int)
      requires Holds(f0)
      modifies this, ring
      ensures Holds(f0)
      ensures lastScanline == if n1 > old(lastScanline) then n1 else old(lastScanline)
      ensures firstScanline == (if lastScanline - old(firstScanline) + 1 <= ring.Length then old(firstScanline) else lastScanline - ring.Length + 1)
    {
      while n1 > lastScanline
        invariant Holds(f0) && old(lastScanline) <= lastScanline
        invariant lastScanline <= n1 || lastScanline == old(lastScanline)
        invariant firstScanline == (if lastScanline - old(firstScanline) + 1 <= ring.Length then old(firstScanline) else lastScanline - ring.Length + 1)
        decreases n1 - lastScanline
      {
        LoadNext(f0);
      }
    }

    method Fetch(n: int, cnt: nat, ghost f0: int) returns (inputs: seq<seq<real>>)
      requires Holds(f0) && firstScanline <= n && n + cnt - 1 <= lastScanline
      ensures |inputs| == cnt && forall j :: 0 <= j < cnt ==> inputs[j] == line(n + j)
    {
      inputs := [];
      for i := 0 to cnt
        invariant |inputs| == i && forall j :: 0 <= j < i ==> inputs[j] == line(n + j)
      {
        var l := GetScanline(n + i, f0);
        inputs := inputs + [l];
      }
    }

    /** The weighted sum of up to eight scanlines, continuing from the first `k` unless it is
        the first group. */
    method GatherGroup(coeffs: seq<real>, ghost n0: int, k: nat, inputs: seq<seq<real>>)
      requires Uniform(line, width) && output.Length == width
      requires 1 <= |inputs| <= 8 && k + |inputs| <= |coeffs|
      requires forall j :: 0 <= j < |inputs| ==> inputs[j] == line(n0 + k + j)
      requires k > 0 ==> forall i :: 0 <= i < width ==> output[i] == Convolve(line, width, coeffs, n0, k, i)
      modifies output
      ensures forall i :: 0 <= i < width ==> output[i] == Convolve(line, width, coeffs, n0, k + |inputs|, i)
    {
      for i := 0 to width
        invariant forall x :: 0 <= x < i ==> output[x] == Convolve(line, width, coeffs, n0, k + |inputs|, x)
        invariant forall x :: i <= x < width ==> output[x] == old(output[x])
      {
        var o := inputs[0][i] * coeffs[k];
        if k > 0 {
          o := output[i] + o;
        }
        for j := 1 to |inputs|
          invariant o == Convolve(line, width, coeffs, n0, k + j, i)
        {
          o := o + inputs[j][i] * coeffs[k + j];
        }
        output[i] := o;
      }
    }

    /** One output row, from scanlines that the ring holds. */
    method ResampleRow(c: Contributors, coeffs: seq<real>, ghost f0: int)
      requires Holds(f0) && firstScanline <= c.n0 <= c.n1 <= lastScanline && c.n1 - c.n0 + 1 <= |coeffs|
      modifies output
      ensures Holds(f0) && IsOutputRow(output[..], line, width, c, coeffs)
    {
      hide Slot;
      var k, total := 0, c.n1 - c.n0 + 1;
      while total > 0
        invariant Holds(f0) && 0 <= total && k + total == c.n1 - c.n0 + 1
        invariant k > 0 ==> forall i :: 0 <= i < width ==> output[i] == Convolve(line, width, coeffs, c.n0, k, i)
        invariant k > 0 ==> !(c.n0 == c.n1 && NearOne(coeffs[0]))
        decreases total
      {
        var cnt := if total > 8 then 8 else total;
        var inputs := Fetch(c.n0 + k, cnt, f0);
        if k == 0 && cnt == 1 && NearOne(coeffs[0]) {
          forall i | 0 <= i < width {
            output[i] := inputs[0][i];
          }
          assert output[..] == line(c.n0);
          return;
        }
        GatherGroup(coeffs, c.n0, k, inputs);
        k, total := k + cnt, total - cnt;
      }
    }

    /** The vertical gather loop: every row is the direct convolution of its own contributors,
        provided each is within reach. */
    method GatherLoop(cs: seq<Contributors>, coeffs: seq<seq<real>>) returns (rows: seq<seq<real>>)
      requires ring.Length > 0 && Uniform(line, width) && output.Length == width
      requires 0 < |cs| == |coeffs|
      requires forall y :: 0 <= y < |cs| ==> cs[y].n0 <= cs[y].n1 && cs[y].n1 - cs[y].n0 + 1 <= |coeffs[y]|
      requires forall y :: 0 <= y < |cs| ==> WithinReach(cs, cs[0].n0, ring.Length, y)
      modifies this, ring, output
      ensures |rows| == |cs|
      ensures forall y :: 0 <= y < |cs| ==> IsOutputRow(rows[y], line, width, cs[y], coeffs[y])
    {
      var f0 := cs[0].n0;
      beginIndex, firstScanline, lastScanline := 0, f0, f0 - 1;
      rows := [];
      for y := 0 to |cs|
        invariant Holds(f0) && |rows| == y
        invariant lastScanline == Last(cs, f0, y) && firstScanline == First(cs, f0, ring.Length, y)
        invariant forall x :: 0 <= x < y ==> IsOutputRow(rows[x], line, width, cs[x], coeffs[x])
      {
        ResidentIffWithinReach(cs, f0, ring.Length, y);
        LoadUpTo(cs[y].n1, f0);
        assert Held(cs, f0, ring.Length, y, cs[y].n0);
        ResampleRow(cs[y], coeffs[y], f0);
        rows := rows + [output[..]];
      }
    }
  }
}
