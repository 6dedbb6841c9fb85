/** Adam7 interlacing (section 8.2 of the PNG specification): seven reduced images scattered into
    the full one. */
module Adam7 {
  import opened Arith

  const X_ORIGIN: seq<nat> := [0, 4, 0, 2, 0, 1, 0]
  const Y_ORIGIN: seq<nat> := [0, 0, 4, 0, 2, 0, 1]
  const X_SPACING: seq<nat> := [8, 8, 4, 4, 2, 2, 1]
  const Y_SPACING: seq<nat> := [8, 8, 8, 4, 4, 2, 2]

  /** Where the samples of a pass lie along one axis. */
  datatype Axis = Axis(origin: nat, spacing: nat)

  function XAxis(p: nat): (a: Axis)
    requires p < 7
    ensures a.spacing in {1, 2, 4, 8} && a.origin < a.spacing
  {
    Axis(X_ORIGIN[p], X_SPACING[p])
  }

  function YAxis(p: nat): (a: Axis)
    requires p < 7
    ensures a.spacing in {1, 2, 4, 8} && a.origin < a.spacing
  {
    Axis(Y_ORIGIN[p], Y_SPACING[p])
  }

  /** How many samples of an axis fit `size`. */
  function Extent(a: Axis, size: nat): int
    requires a.spacing > 0
  {
    (size - a.origin + a.spacing - 1) / a.spacing
  }

  /** Whether `v` is some sample's place on the axis. */
  predicate OnAxis(a: Axis, v: nat) {
    if a.spacing == 8 then v % 8 == a.origin
    else if a.spacing == 4 then v % 4 == a.origin
    else if a.spacing == 2 then v % 2 == a.origin
    else true
  }

  function Place(a: Axis, i: int): int {
    i * a.spacing + a.origin
  }

  /** Exactly the samples counted by `Extent` lie inside. */
  lemma ExtentExact(a: Axis, size: nat, i: nat)
    requires a.spacing in {1, 2, 4, 8} && a.origin < a.spacing
    ensures i < Extent(a, size) <==> Place(a, i) < size
    ensures Place(a, i) >= 0
  {
    if a.spacing == 1 {
    } else if a.spacing == 2 {
    } else if a.spacing == 4 {
    } else {
    }
  }

  /** The pass that pixel (x, y) arrives in. */
  function PassOf(x: nat, y: nat): (p: nat)
    ensures p < 7
  {
    if y % 2 == 1 then 6
    else if x % 2 == 1 then 5
    else if y % 4 == 2 then 4
    else if x % 4 == 2 then 3
    else if y % 8 == 4 then 2
    else if x % 8 == 4 then 1
    else 0
  }

  function IndexOn(a: Axis, v: int): int
    requires a.spacing > 0
  {
    (v - a.origin) / a.spacing
  }

  /** Pixel (x, y) is sample (i, j) of pass `p`. */
  ghost predicate IsSample(p: nat, i: int, j: int, x: nat, y: nat)
    requires p < 7
  {
    Place(XAxis(p), i) == x && Place(YAxis(p), j) == y
  }

  /** The index of a place with spacing `m`. */
  lemma IndexAt(m: nat, o: nat, i: nat, v: nat)
    requires o < m
    ensures i * m + o == v <==> v % m == o && i == (v - o) / m
  {
    if i * m + o == v {
      DivModUnique(v, m, i, o);
      DivModUnique(v - o, m, i, 0);
    } else if v % m == o {
      assert v == v / m * m + o;
      DivModUnique(v - o, m, v / m, 0);
    }
  }

  /** A place on an axis is known by its remainder, and names one index. */
  lemma AxisIndex(a: Axis, i: nat, v: nat)
    requires a.spacing in {1, 2, 4, 8} && a.origin < a.spacing
    ensures Place(a, i) == v <==> OnAxis(a, v) && i == IndexOn(a, v)
  {
    IndexAt(a.spacing, a.origin, i, v);
  }

  /** Remainders by 2 and 4 follow from the remainder by 8. */
  lemma RemaindersNest(x: nat)
    ensures x % 4 == (if x % 8 >= 4 then x % 8 - 4 else x % 8)
    ensures x % 2 == (if x % 4 >= 2 then x % 4 - 2 else x % 4)
  {
    HalfRemainder(x, 4);
    HalfRemainder(x, 2);
  }

  /** The remainders that single out each pass. */
  lemma PassRemainders(p: nat, x: nat, y: nat)
    requires p < 7
    ensures p == PassOf(x, y) <==> OnAxis(XAxis(p), x) && OnAxis(YAxis(p), y)
  {
    RemaindersNest(x);
    RemaindersNest(y);
    if p == 0 {
      assert XAxis(0) == Axis(0, 8) && YAxis(0) == Axis(0, 8);
    } else if p == 1 {
      assert XAxis(1) == Axis(4, 8) && YAxis(1) == Axis(0, 8);
    } else if p == 2 {
      assert XAxis(2) == Axis(0, 4) && YAxis(2) == Axis(4, 8);
    } else if p == 3 {
      assert XAxis(3) == Axis(2, 4) && YAxis(3) == Axis(0, 4);
    } else if p == 4 {
      assert XAxis(4) == Axis(0, 2) && YAxis(4) == Axis(2, 4);
    } else if p == 5 {
      assert XAxis(5) == Axis(1, 2) && YAxis(5) == Axis(0, 2);
    } else {
      assert XAxis(6) == Axis(0, 1) && YAxis(6) == Axis(1, 2);
    }
  }

  /** Every pixel is a sample of the pass it arrives in, and of no other. */
  lemma SampleIff(p: nat, i: nat, j: nat, x: nat, y: nat)
    requires p < 7
    ensures IsSample(p, i, j, x, y) <==>
            p == PassOf(x, y) && i == IndexOn(XAxis(p), x) && j == IndexOn(YAxis(p), y)
  {
    hide XAxis;
    hide YAxis;
    PassRemainders(p, x, y);
    AxisIndex(XAxis(p), i, x);
    AxisIndex(YAxis(p), j, y);
  }

  lemma IndexNonNegative(p: nat, x: nat, y: nat)
    requires p == PassOf(x, y)
    ensures IndexOn(XAxis(p), x) >= 0 && IndexOn(YAxis(p), y) >= 0
  {
    PassRemainders(p, x, y);
    AxisNonNegative(XAxis(p), x);
    AxisNonNegative(YAxis(p), y);
  }

  lemma AxisNonNegative(a: Axis, v: nat)
    requires a.spacing in {1, 2, 4, 8} && a.origin < a.spacing && OnAxis(a, v)
    ensures IndexOn(a, v) >= 0
  {
  }

  /** The samples inside their passes' extents are in one-to-one correspondence with the pixels
      of the image. */
  lemma Bijection(w: nat, h: nat, x: nat, y: nat)
    requires x < w && y < h
    ensures exists p: nat, i: nat, j: nat :: && p < 7 && i < Extent(XAxis(p), w) && j < Extent(YAxis(p), h)
                                            && IsSample(p, i, j, x, y)
    ensures forall p: nat, i: nat, j: nat :: p < 7 && IsSample(p, i, j, x, y) ==>
              p == PassOf(x, y) && i == IndexOn(XAxis(p), x) && j == IndexOn(YAxis(p), y)
  {
    var p := PassOf(x, y);
    IndexNonNegative(p, x, y);
    var i: nat, j: nat := IndexOn(XAxis(p), x), IndexOn(YAxis(p), y);
    SampleIff(p, i, j, x, y);
    ExtentExact(XAxis(p), w, i);
    ExtentExact(YAxis(p), h, j);
    forall p': nat, i': nat, j': nat | p' < 7 && IsSample(p', i', j', x, y)
      ensures p' == PassOf(x, y) && i' == IndexOn(XAxis(p'), x) && j' == IndexOn(YAxis(p'), y)
    {
      SampleIff(p', i', j', x, y);
    }
  }

  /** The passes of an eight by eight square, as section 8.2 of the PNG specification draws them. */
  const PATTERN: seq<seq<nat>> := [
    [1, 6, 4, 6, 2, 6, 4, 6],
    [7, 7, 7, 7, 7, 7, 7, 7],
    [5, 6, 5, 6, 5, 6, 5, 6],
    [7, 7, 7, 7, 7, 7, 7, 7],
    [3, 6, 4, 6, 3, 6, 4, 6],
    [7, 7, 7, 7, 7, 7, 7, 7],
    [5, 6, 5, 6, 5, 6, 5, 6],
    [7, 7, 7, 7, 7, 7, 7, 7]]

  /** A pixel arrives in the pass that the pattern, repeated over the image, gives it; and a pass's
      samples come row by row, each row from left to right. */
  lemma PassPattern(x: nat, y: nat)
    ensures PassOf(x, y) + 1 == PATTERN[y % 8][x % 8]
  {
    RemaindersNest(x);
    RemaindersNest(y);
  }

  lemma PlacesAscend(p: nat, i: nat, j: nat)
    requires p < 7 && i < j
    ensures Place(XAxis(p), i) < Place(XAxis(p), j) && Place(YAxis(p), i) < Place(YAxis(p), j)
  {
  }

  // ----- the scatter loops -----

  /** Reduced image `p`, as rows. */
  type Reduced<T> = seq<seq<T>>

  ghost predicate WellSized<T>(subs: seq<Reduced<T>>, w: nat, h: nat) {
    |subs| == 7 && forall p :: 0 <= p < 7 ==> PassSized(subs[p], Extent(XAxis(p), w), Extent(YAxis(p), h))
  }

  ghost predicate PassSized<T>(sub: Reduced<T>, xs: int, ys: int) {
    |sub| >= ys && forall j :: 0 <= j < ys ==> |sub[j]| >= xs
  }

  /** The value that pixel (x, y) must get. */
  ghost function Sample<T>(subs: seq<Reduced<T>>, w: nat, h: nat, x: nat, y: nat): T
    requires WellSized(subs, w, h) && x < w && y < h
  {
    var p := PassOf(x, y);
    IndexNonNegative(p, x, y);
    var i: nat, j: nat := IndexOn(XAxis(p), x), IndexOn(YAxis(p), y);
    SampleIff(p, i, j, x, y);
    ExtentExact(XAxis(p), w, i);
    ExtentExact(YAxis(p), h, j);
    assert PassSized(subs[p], Extent(XAxis(p), w), Extent(YAxis(p), h));
    subs[p][j][i]
  }

  /** Pixel (x, y) arrives before row `j`, column `i` of pass `p`. */
  ghost predicate Before(x: nat, y: nat, p: nat, j: nat, i: nat) {
    var q := PassOf(x, y);
    || q < p
    || (p < 7 && q == p && (|| IndexOn(YAxis(q), y) < j
                   || (IndexOn(YAxis(q), y) == j && IndexOn(XAxis(q), x) < i)))
  }

  /** The pixels that have arrived hold their values. */
  ghost predicate Arrived<T>(final: array2<T>, subs: seq<Reduced<T>>, w: nat, h: nat, p: nat, j: nat, i: nat)
    reads final
    requires WellSized(subs, w, h) && final.Length0 == h && final.Length1 == w
  {
    forall x: nat, y: nat :: x < w && y < h && Before(x, y, p, j, i) ==> final[y, x] == Sample(subs, w, h, x, y)
  }

  /** Scatters the seven reduced images; no write leaves the image, and every pixel gets the
      sample that belongs to it. */
  method Deinterlace<T>(final: array2<T>, subs: seq<Reduced<T>>)
    requires WellSized(subs, final.Length1, final.Length0)
    modifies final
    ensures forall x: nat, y: nat :: x < final.Length1 && y < final.Length0 ==>
              final[y, x] == Sample(subs, final.Length1, final.Length0, x, y)
  {
    var w, h := final.Length1, final.Length0;
    for p := 0 to 7
      invariant Arrived(final, subs, w, h, p, 0, 0)
    {
      ScatterPass(final, subs, p);
    }
  }

  method ScatterPass<T>(final: array2<T>, subs: seq<Reduced<T>>, p: nat)
    requires p < 7 && WellSized(subs, final.Length1, final.Length0)
    requires Arrived(final, subs, final.Length1, final.Length0, p, 0, 0)
    modifies final
    ensures Arrived(final, subs, final.Length1, final.Length0, p + 1, 0, 0)
  {
    hide Before;
    hide Sample;
    hide XAxis;
    hide YAxis;
    hide Extent;
    var w, h := final.Length1, final.Length0;
    var xs, ys := Extent(XAxis(p), w), Extent(YAxis(p), h);
    ExtentNonNegative(XAxis(p), w);
    ExtentNonNegative(YAxis(p), h);
    for j := 0 to ys
      invariant Arrived(final, subs, w, h, p, j, 0)
    {
      for i := 0 to xs
        invariant Arrived(final, subs, w, h, p, j, i)
      {
        PutSample(final, subs, p, j, i);
      }
      forall x: nat, y: nat | x < w && y < h && Before(x, y, p, j + 1, 0) ensures Before(x, y, p, j, xs) {
        RowEnd(p, j, w, h, x, y);
      }
    }
    forall x: nat, y: nat | x < w && y < h && Before(x, y, p + 1, 0, 0) ensures Before(x, y, p, ys, 0) {
      PassEnd(p, w, h, x, y);
    }
  }

  method PutSample<T>(final: array2<T>, subs: seq<Reduced<T>>, p: nat, j: nat, i: nat)
    requires p < 7 && WellSized(subs, final.Length1, final.Length0)
    requires i < Extent(XAxis(p), final.Length1) && j < Extent(YAxis(p), final.Length0)
    requires Arrived(final, subs, final.Length1, final.Length0, p, j, i)
    modifies final
    ensures Arrived(final, subs, final.Length1, final.Length0, p, j, i + 1)
  {
    hide Before;
    hide XAxis;
    hide YAxis;
    hide Place;
    hide Extent;
    hide Sample;
    ghost var w, h := final.Length1, final.Length0;
    ExtentExact(XAxis(p), w, i);
    ExtentExact(YAxis(p), h, j);
    assert PassSized(subs[p], Extent(XAxis(p), w), Extent(YAxis(p), h));
    var outX, outY := Place(XAxis(p), i), Place(YAxis(p), j);
    forall x: nat, y: nat | x < w && y < h && Before(x, y, p, j, i + 1) && !Before(x, y, p, j, i)
      ensures x == outX && y == outY
    {
      OnlyThisPixel(p, j, i, x, y);
    }
    SampleAt(subs, w, h, p, i, j);
    final[outY, outX] := subs[p][j][i];
  }

  lemma SampleAt<T>(subs: seq<Reduced<T>>, w: nat, h: nat, p: nat, i: nat, j: nat)
    requires p < 7 && WellSized(subs, w, h) && i < Extent(XAxis(p), w) && j < Extent(YAxis(p), h)
    ensures 0 <= Place(XAxis(p), i) < w && 0 <= Place(YAxis(p), j) < h
    ensures |subs[p]| > j && |subs[p][j]| > i
    ensures Sample(subs, w, h, Place(XAxis(p), i), Place(YAxis(p), j)) == subs[p][j][i]
  {
    hide XAxis;
    hide YAxis;
    hide Extent;
    hide PassOf;
    hide IndexOn;
    ExtentExact(XAxis(p), w, i);
    ExtentExact(YAxis(p), h, j);
    assert PassSized(subs[p], Extent(XAxis(p), w), Extent(YAxis(p), h));
    SampleIff(p, i, j, Place(XAxis(p), i), Place(YAxis(p), j));
  }

  lemma ExtentNonNegative(a: Axis, size: nat)
    requires a.spacing in {1, 2, 4, 8} && a.origin < a.spacing
    ensures Extent(a, size) >= 0
  {
  }

  /** One more step of the loops brings one more pixel. */
  lemma OnlyThisPixel(p: nat, j: nat, i: nat, x: nat, y: nat)
    requires p < 7 && Before(x, y, p, j, i + 1) && !Before(x, y, p, j, i)
    ensures Place(XAxis(p), i) == x && Place(YAxis(p), j) == y
  {
    hide XAxis;
    hide YAxis;
    hide IndexOn;
    SampleIff(p, i, j, x, y);
  }

  lemma RowEnd(p: nat, j: nat, w: nat, h: nat, x: nat, y: nat)
    requires p < 7 && x < w && y < h && Before(x, y, p, j + 1, 0) && Extent(XAxis(p), w) >= 0
    ensures Before(x, y, p, j, Extent(XAxis(p), w))
  {
    hide XAxis;
    hide YAxis;
    hide IndexOn;
    hide Extent;
    if PassOf(x, y) == p {
      IndexNonNegative(p, x, y);
      var i, k := IndexOn(XAxis(p), x), IndexOn(YAxis(p), y);
      SampleIff(p, i, k, x, y);
      ExtentExact(XAxis(p), w, i);
    }
  }

  lemma PassEnd(p: nat, w: nat, h: nat, x: nat, y: nat)
    requires p < 7 && x < w && y < h && Before(x, y, p + 1, 0, 0) && Extent(YAxis(p), h) >= 0
    ensures Before(x, y, p, Extent(YAxis(p), h), 0)
  {
    hide XAxis;
    hide YAxis;
    hide IndexOn;
    hide Extent;
    IndexNonNegative(PassOf(x, y), x, y);
    if PassOf(x, y) == p {
      var i, k := IndexOn(XAxis(p), x), IndexOn(YAxis(p), y);
      SampleIff(p, i, k, x, y);
      ExtentExact(YAxis(p), h, k);
    }
  }
}
