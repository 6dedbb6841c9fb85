/** The division of output rows among threads: near-equal shares, each boundary then moved past
    rows whose contributors start earlier than the share's first row. */
module Splits {
  import opened Arith
  import opened Sampling
  import opened GatherRing

  /** What is left for the last `k` of the splits, with `q` the floor of the mean share, lies
      between `q` and `q + 1` rows each. */
  ghost predicate Balanced(left: int, k: int, q: int) {
    q * k <= left <= (q + 1) * k
  }

  /** One share is `q` or `q + 1`, the latter only if all the rest are; and balance persists. */
  lemma ShareStep(left: int, k: int, q: int)
    requires k >= 1 && q >= 0 && Balanced(left, k, q)
    ensures var each := left / k;
            && q <= each <= q + 1 && (each == q + 1 <==> left == (q + 1) * k)
            && Balanced(left - each, k - 1, q)
            && (each == q ==> left - each - q * (k - 1) == left - q * k)
  {
    assert (q + 1) * k == q * k + k && q * (k - 1) == q * k - q && (q + 1) * (k - 1) == q * k - q + k - 1;
    if left == (q + 1) * k {
      DivModUnique(left, k, q + 1, 0);
    } else {
      DivModUnique(left, k, q, left - q * k);
    }
  }

  lemma BalancedAtStart(height: nat, splits: int)
    requires splits >= 1
    ensures Balanced(height, splits, height / splits) && height / splits >= 0
  {
    var q := height / splits;
    assert height == q * splits + height % splits && (q + 1) * splits == q * splits + splits;
    if q <= -1 {
      MulAtMost(q, splits);
    }
  }

  /** The largest share: the mean, rounded up. */
  method GetMaxSplit(splits: nat, height: nat) returns (max: int)
    requires splits >= 1
    ensures max == (height + splits - 1) / splits
  {
    var left: int := height;
    max := 0;
    ghost var q := height / splits;
    BalancedAtStart(height, splits);
    for i := 0 to splits
      invariant Balanced(left, splits - i, q)
      invariant 0 <= max <= q + 1 && (i > 0 ==> max >= q)
      invariant max == q + 1 || left - q * (splits - i) == height - q * splits
      invariant max == q + 1 ==> height != q * splits
    {
      ShareStep(left, splits - i, q);
      var each := left / (splits - i);
      if each == q + 1 {
        ShareExceeds(left, splits - i, q);
      }
      if each > max {
        max := each;
      }
      left := left - each;
    }
    RoundUp(height, splits);
  }

  lemma ShareExceeds(left: int, k: int, q: int)
    requires k >= 1 && left == (q + 1) * k
    ensures left - q * k != 0
  {
    assert (q + 1) * k == q * k + k;
  }

  lemma RoundUp(height: nat, splits: nat)
    requires splits >= 1
    ensures (height + splits - 1) / splits == if height == height / splits * splits then height / splits else height / splits + 1
  {
    var q, r := height / splits, height % splits;
    assert height == q * splits + r;
    if r == 0 {
      DivModUnique(height + splits - 1, splits, q, splits - 1);
    } else {
      assert (q + 1) * splits == q * splits + splits;
      DivModUnique(height + splits - 1, splits, q + 1, r - 1);
    }
  }

  // ----- the ranges -----

  datatype Range = Range(start: int, end: int)

  /** The first row of split `i` before any adjustment, and the rows left from there. */
  function Left(height: nat, splits: nat, i: nat): int
    requires i <= splits
  {
    if i == 0 then height else
      var l := Left(height, splits, i - 1);
      l - l / (splits - (i - 1))
  }

  function Share(height: nat, splits: nat, i: nat): int
    requires i < splits
  {
    Left(height, splits, i) / (splits - i)
  }

  lemma BalancedNonNegative(left: int, k: int, q: int)
    requires q >= 0 && k >= 0 && Balanced(left, k, q)
    ensures left >= 0
  {
    MulNonNegative(q, k);
  }

  lemma LeftStep(height: nat, splits: nat, i: nat)
    requires i < splits
    ensures Left(height, splits, i + 1) == Left(height, splits, i) - Share(height, splits, i)
  {
  }

  lemma {:induction false} LeftBalanced(height: nat, splits: nat, i: nat)
    requires splits >= 1 && i <= splits
    ensures Balanced(Left(height, splits, i), splits - i, height / splits)
    ensures 0 <= Left(height, splits, i) <= height
  {
    hide Balanced;
    hide Left;
    LeftZero(height, splits);
    BalancedAtStart(height, splits);
    var q := height / splits;
    if i > 0 {
      LeftBalanced(height, splits, i - 1);
      ShareStep(Left(height, splits, i - 1), splits - (i - 1), q);
      LeftStep(height, splits, i - 1);
    }
    BalancedNonNegative(Left(height, splits, i), splits - i, q);
  }

  /** Any two unadjusted shares differ by at most one row, and together they make up the height. */
  lemma SharesEven(height: nat, splits: nat, i: nat, j: nat)
    requires i < splits && j < splits
    ensures -1 <= Share(height, splits, i) - Share(height, splits, j) <= 1
    ensures Left(height, splits, splits) == 0
  {
    var q := height / splits;
    BalancedAtStart(height, splits);
    LeftBalanced(height, splits, i);
    LeftBalanced(height, splits, j);
    LeftBalanced(height, splits, splits);
    ShareStep(Left(height, splits, i), splits - i, q);
    ShareStep(Left(height, splits, j), splits - j, q);
  }

  /** The first shares are the smaller ones: the mean rounded down, until the rest divides evenly. */
  lemma {:induction false} SharesGrow(height: nat, splits: nat, i: nat, j: nat)
    requires i <= j < splits
    ensures Share(height, splits, 0) == height / splits
    ensures Share(height, splits, i) <= Share(height, splits, j)
    decreases j - i
  {
    LeftZero(height, splits);
    BalancedAtStart(height, splits);
    hide Balanced;
    if i < j {
      SharesGrow(height, splits, i, j - 1);
      LeftBalanced(height, splits, j - 1);
      LeftStep(height, splits, j - 1);
      hide Left;
      NextShare(Left(height, splits, j - 1), splits - (j - 1), height / splits);
    }
  }

  lemma NextShare(left: int, k: int, q: int)
    requires k >= 2 && q >= 0 && Balanced(left, k, q)
    ensures left / k <= (left - left / k) / (k - 1)
  {
    ShareStep(left, k, q);
    ShareStep(left - left / k, k - 1, q);
    assert (q + 1) * k == (q + 1) * (k - 1) + (q + 1);
  }

  /** How far the scan for an earlier contributor looks. */
  function ScanStop(margin: int, each: int): int {
    if each < margin * 3 then each else margin * 3
  }

  lemma ScanReach(margin: int, each: int)
    ensures ScanStop(margin, each) <= each && ScanStop(margin, each) <= 3 * margin
    ensures ScanStop(margin, each) == each || ScanStop(margin, each) == 3 * margin
  {
  }

  /** Where contributors start, as read from memory: the table's entries, then whatever lies
      beyond them. */
  function Memory(table: seq<Contributors>, beyond: int): int -> int {
    i => if 0 <= i < |table| then table[i].n0 else beyond
  }

  /** Where the contributors of the share's row `j` start. */
  function StartOf(n0: int -> int, cur: int, j: int): int {
    n0(cur + j)
  }

  /** The scan looks at rows `0 .. r - 1` of the share: it goes on to `stop`, or to before the
      first row that starts later than the share does. */
  ghost predicate Explored(n0: int -> int, cur: int, stop: int, r: int) {
    && r >= 1 && (r == 1 || r - 1 <= stop)
    && (forall k :: 0 <= k < r ==> StartOf(n0, cur, k) <= StartOf(n0, cur, 0))
    && (r > stop || StartOf(n0, cur, r) > StartOf(n0, cur, 0))
  }

  /** Of the rows looked at, `j` is the first of those that start earliest. */
  ghost predicate Earliest(n0: int -> int, cur: int, stop: int, j: int) {
    exists r :: Explored(n0, cur, stop, r) && FirstLeast(n0, cur, r, j)
  }

  ghost predicate FirstLeast(n0: int -> int, cur: int, r: int, j: int) {
    && 0 <= j < r
    && (forall k :: 0 <= k < r ==> StartOf(n0, cur, j) <= StartOf(n0, cur, k))
    && (forall k :: 0 <= k < j ==> StartOf(n0, cur, j) < StartOf(n0, cur, k))
  }

  /** At most one row qualifies. */
  lemma EarliestUnique(n0: int -> int, cur: int, stop: int, i: int, j: int)
    requires Earliest(n0, cur, stop, i) && Earliest(n0, cur, stop, j)
    ensures i == j
  {
    var r :| Explored(n0, cur, stop, r) && FirstLeast(n0, cur, r, i);
    var s :| Explored(n0, cur, stop, s) && FirstLeast(n0, cur, s, j);
    assert r == s;
  }

  /** A boundary moves only to a row that starts earlier than all before it. */
  lemma MovesForEarlier(n0: int -> int, cur: int, stop: int, j: int, k: int)
    requires Earliest(n0, cur, stop, j) && 0 <= k < j
    ensures StartOf(n0, cur, j) < StartOf(n0, cur, k)
  {
  }

  /** Rows that start with the share do not stop the scan; a row that starts later does. */
  lemma ScanGoesOn(n0: int -> int, cur: int)
    requires n0(cur) == 5 && n0(cur + 1) == 5 && n0(cur + 2) == 4
    ensures Earliest(n0, cur, 2, 2) && !Earliest(n0, cur, 2, 0) && Earliest(n0, cur, 1, 0)
    ensures n0(cur + 3) == 6 && n0(cur + 4) == 1 ==> Earliest(n0, cur, 4, 2)
  {
    assert StartOf(n0, cur, 0) == 5 && StartOf(n0, cur, 1) == 5 && StartOf(n0, cur, 2) == 4;
    assert Explored(n0, cur, 2, 3) && FirstLeast(n0, cur, 3, 2);
    assert Explored(n0, cur, 1, 2) && FirstLeast(n0, cur, 2, 0);
    if Earliest(n0, cur, 2, 0) {
      EarliestUnique(n0, cur, 2, 0, 2);
    }
    if n0(cur + 3) == 6 {
      assert StartOf(n0, cur, 3) == 6;
      assert Explored(n0, cur, 4, 3);
    }
  }

  /** What the adjustment is for: if no row starts before the share once the scan is past, nor
      after a row that started later, then no row of the range starts before its first. */
  lemma NoRowStartsEarlier(n0: int -> int, cur: int, stop: int, height: int, j: int, k: int)
    requires Earliest(n0, cur, stop, j) && j <= k < height - cur
    requires Settles(n0, cur, stop, height)
    ensures StartOf(n0, cur, j) <= StartOf(n0, cur, k)
  {
    var r :| Explored(n0, cur, stop, r) && FirstLeast(n0, cur, r, j);
    assert StartOf(n0, cur, j) <= StartOf(n0, cur, 0);
  }

  /** From row `cur` on, starts dip below that row's only within `stop` rows, and not after a row
      that starts later. */
  ghost predicate Settles(n0: int -> int, cur: int, stop: int, height: int) {
    && (forall c :: c > stop && 1 <= c < height - cur ==> StartOf(n0, cur, c) >= StartOf(n0, cur, 0))
    && (forall b, c :: 0 <= b < c < height - cur && StartOf(n0, cur, b) > StartOf(n0, cur, 0) ==>
                         StartOf(n0, cur, c) >= StartOf(n0, cur, 0))
  }

  /** The furthest row read by a scan that looked at `r` rows: the row that stopped it, or `stop`. */
  function Furthest(stop: int, r: int): int {
    if stop < 1 then 0 else if r <= stop then r else stop
  }

  /** The scan of a share's first rows, up to the first that starts later than the share does:
      the offset of the first row that starts earliest, and the last table entry read. */
  method Scan(n0: int -> int, cur: int, margin: int, each: int) returns (smallest: int, last: int)
    requires each >= 0
    ensures 0 <= smallest <= each && Earliest(n0, cur, ScanStop(margin, each), smallest)
    ensures exists r :: Explored(n0, cur, ScanStop(margin, each), r) && last == cur + Furthest(ScanStop(margin, each), r)
  {
    var stop := margin * 3;
    if each < stop {
      stop := each;
    }
    smallest := 0;
    last := cur;
    var j := 1;
    while j <= stop
      invariant 1 <= j && (j == 1 || j - 1 <= stop) && FirstLeast(n0, cur, j, smallest) && last == cur + j - 1
      invariant forall k :: 0 <= k < j ==> StartOf(n0, cur, k) <= StartOf(n0, cur, 0)
      decreases stop - j
    {
      last := cur + j;
      if StartOf(n0, cur, j) > StartOf(n0, cur, 0) {
        break;
      }
      if StartOf(n0, cur, j) < StartOf(n0, cur, smallest) {
        smallest := j;
      }
      j := j + 1;
    }
    assert Explored(n0, cur, stop, j);
  }

  // ----- how far the table is read -----

  /** The scans read the entry after the table's last: with no rows at all, or when the last
      share is within the scan's length and no row of it starts later than its first. */
  ghost predicate ReadsPast(splits: nat, height: nat, margin: int, isGather: bool, n0: int -> int) {
    && isGather && splits >= 2
    && (height == 0 || LastShareScanned(splits, height, margin, n0))
  }

  ghost predicate LastShareScanned(splits: nat, height: nat, margin: int, n0: int -> int)
    requires splits >= 2
  {
    var cur, each := height - Left(height, splits, splits - 1), Share(height, splits, splits - 1);
    each <= 3 * margin && forall k :: 1 <= k < each ==> StartOf(n0, cur, k) <= StartOf(n0, cur, 0)
  }

  /** Some rows are left for every share, if there are any at all. */
  lemma {:induction false} LeftPositive(height: nat, splits: nat, i: nat)
    requires height > 0 && i < splits
    ensures Left(height, splits, i) > 0
  {
    if i > 0 {
      LeftPositive(height, splits, i - 1);
      var l, k := Left(height, splits, i - 1), splits - (i - 1);
      var each := l / k;
      assert l == each * k + l % k;
      if each >= l {
        MulOrder(l, each, k);
        assert l * k == l * (k - 1) + l;
        MulAtLeast(l, k - 1);
        assert false;
      }
    }
  }

  /** One scan reads past the table exactly if it is the last share's and goes to its end. */
  lemma ScanReadsPast(splits: nat, height: nat, margin: int, n0: int -> int, i: nat, r: int)
    requires splits >= 2 && i < splits
    requires var cur, each := height - Left(height, splits, i), Share(height, splits, i);
             Explored(n0, cur, ScanStop(margin, each), r)
    ensures var cur, each := height - Left(height, splits, i), Share(height, splits, i);
            var last := cur + Furthest(ScanStop(margin, each), r);
            && last <= height
            && (last == height <==> height == 0 || (i == splits - 1 && LastShareScanned(splits, height, margin, n0)))
  {
    hide Left;
    hide Share;
    ShareNonNegative(height, splits, i);
    LeftBalanced(height, splits, i);
    LeftStep(height, splits, i);
    LeftBalanced(height, splits, i + 1);
    SharesEven(height, splits, 0, 0);
    if height > 0 {
      LeftPositive(height, splits, i);
      if i < splits - 1 {
        LeftPositive(height, splits, i + 1);
      }
    }
  }

  /** Two rows with the same start, a margin of one, two threads: the second thread's scan reads a
      third entry. */
  lemma TwoEqualRows(c: Contributors, beyond: int)
    ensures ReadsPast(2, |[c, c]|, 1, true, Memory([c, c], beyond))
  {
    hide Left;
    hide Memory;
    LeftZero(2, 2);
    LeftStep(2, 2, 0);
    assert Share(2, 2, 0) == 1;
    assert Share(2, 2, 1) == 1;
  }

  /** Range `i` starts where the one before it ends. */
  ghost predicate Touches(r: seq<Range>, i: nat)
    requires 1 <= i < |r|
  {
    r[i - 1].end == r[i].start
  }

  /** Ordered, contiguous ranges from 0 to `end`. */
  ghost predicate Tiles(r: seq<Range>, end: int) {
    && |r| > 0 && r[0].start == 0 && r[|r| - 1].end == end
    && (forall i :: 1 <= i < |r| ==> Touches(r, i))
    && (forall i :: 0 <= i < |r| ==> r[i].start <= r[i].end)
  }

  /** Each range starts at its share's first row or, when gathering, at the row the scan finds. */
  ghost predicate Adjusted(r: seq<Range>, height: nat, splits: nat, margin: int, isGather: bool, n0: int -> int)
    requires |r| <= splits
  {
    forall i :: 0 <= i < |r| ==> StartsAt(r[i], i, height, splits, margin, isGather, n0)
  }

  ghost predicate StartsAt(r: Range, i: nat, height: nat, splits: nat, margin: int, isGather: bool, n0: int -> int)
    requires i < splits
  {
    var cur, each := height - Left(height, splits, i), Share(height, splits, i);
    && cur <= r.start <= cur + each
    && if isGather && i > 0 then Earliest(n0, cur, ScanStop(margin, each), r.start - cur) else r.start == cur
  }

  /** Adding a share, and moving its boundary into it, keeps the ranges tiled. */
  lemma TilesExtend(r: seq<Range>, cur: int, each: int, move: int)
    requires Tiles(r, cur) && 0 <= move <= each
    ensures var last := |r| - 1;
            Tiles(r[last := Range(r[last].start, cur + move)] + [Range(cur + move, cur + each)], cur + each)
  {
    var last := |r| - 1;
    var s := r[last := Range(r[last].start, cur + move)] + [Range(cur + move, cur + each)];
    forall i | 1 <= i < |s| ensures Touches(s, i) {
      if i < |r| {
        assert Touches(r, i);
      }
    }
  }

  /** The ranges of `splits` threads tile the output rows, whatever the contributors are, and even
      when an entry beyond the table is read; `last` is the furthest entry read, or -1. */
  method GetSplitInfo(splits: nat, height: nat, margin: int, isGather: bool, table: seq<Contributors>, beyond: int)
    returns (info: array<Range>, last: int)
    requires splits >= 1 && (isGather ==> |table| == height)
    ensures fresh(info) && info.Length == splits && Tiles(info[..], height)
    ensures Adjusted(info[..], height, splits, margin, isGather, Memory(table, beyond))
    ensures last <= height && (last == height <==> ReadsPast(splits, height, margin, isGather, Memory(table, beyond)))
  {
    hide Left;
    hide Share;
    hide Tiles;
    hide Earliest;
    hide Explored;
    hide LastShareScanned;
    hide Memory;
    hide ScanStop;
    LeftZero(height, splits);
    ghost var n0 := Memory(table, beyond);
    info := new Range[splits](_ => Range(0, 0));
    var cur, left: int := 0, height;
    last := -1;
    for i := 0 to splits
      invariant left == Left(height, splits, i) && cur == height - left
      invariant i > 0 ==> Tiles(info[..i], cur)
      invariant Adjusted(info[..i], height, splits, margin, isGather, n0)
      invariant last <= height && (last == height <==> PastAfter(splits, height, margin, isGather, n0, i))
    {
      ShareNonNegative(height, splits, i);
      LeftStep(height, splits, i);
      var each := left / (splits - i);
      ghost var r := info[..i];
      info[i] := Range(cur, cur + each);
      var smallest := 0;
      if isGather && i > 0 {
        var read;
        smallest, read := ScanShare(splits, height, margin, table, beyond, i, cur, each);
        last := if read > last then read else last;
        info[i - 1] := Range(info[i - 1].start, info[i - 1].end + smallest);
        info[i] := Range(info[i].start + smallest, info[i].end);
      }
      if i > 0 {
        TilesExtend(r, cur, each, smallest);
        LastEnd(r, cur);
        assert info[..i + 1] == r[i - 1 := Range(r[i - 1].start, cur + smallest)] + [Range(cur + smallest, cur + each)];
      } else {
        FirstRange(each);
        assert info[..1] == [Range(0, each)];
      }
      cur, left := cur + each, left - each;
    }
    SharesEven(height, splits, 0, 0);
    assert info[..splits] == info[..];
  }

  /** Whether an entry past the table has been read after `i` shares. */
  ghost predicate PastAfter(splits: nat, height: nat, margin: int, isGather: bool, n0: int -> int, i: nat) {
    && isGather && i >= 2 && splits >= 2
    && (height == 0 || (i == splits && LastShareScanned(splits, height, margin, n0)))
  }

  method ScanShare(splits: nat, height: nat, margin: int, table: seq<Contributors>, beyond: int, i: nat, cur: int, each: int)
    returns (smallest: int, read: int)
    requires 1 <= i < splits && cur == height - Left(height, splits, i) && each == Share(height, splits, i)
    ensures 0 <= smallest <= each && Earliest(Memory(table, beyond), cur, ScanStop(margin, each), smallest)
    ensures read <= height
    ensures read == height <==> height == 0 || (i == splits - 1 && LastShareScanned(splits, height, margin, Memory(table, beyond)))
  {
    hide Left;
    hide Share;
    hide Earliest;
    hide Explored;
    hide LastShareScanned;
    ShareNonNegative(height, splits, i);
    var n0 := Memory(table, beyond);
    smallest, read := Scan(n0, cur, margin, each);
    ghost var r :| Explored(n0, cur, ScanStop(margin, each), r) && read == cur + Furthest(ScanStop(margin, each), r);
    ScanReadsPast(splits, height, margin, n0, i, r);
  }

  // ----- the ranges as the gather loop takes them -----

  /** From every share's first row on the table settles, and no row starts before the first. */
  ghost predicate Settled(table: seq<Contributors>, splits: nat, margin: int, beyond: int) {
    && (forall y :: 0 <= y < |table| ==> table[0].n0 <= table[y].n0)
    && (forall i :: 1 <= i < splits ==> SettlesFrom(table, splits, margin, beyond, i))
  }

  ghost predicate SettlesFrom(table: seq<Contributors>, splits: nat, margin: int, beyond: int, i: nat)
    requires i < splits
  {
    var cur, each := |table| - Left(|table|, splits, i), Share(|table|, splits, i);
    Settles(Memory(table, beyond), cur, ScanStop(margin, each), |table|)
  }

  /** No row of a range starts before its first, the rows taken over from the next share included. */
  lemma RangeSettles(info: seq<Range>, table: seq<Contributors>, splits: nat, margin: int, beyond: int, i: nat, y: nat)
    requires |info| == splits && Tiles(info, |table|)
    requires Adjusted(info, |table|, splits, margin, true, Memory(table, beyond))
    requires Settled(table, splits, margin, beyond)
    requires i < splits && y < info[i].end - info[i].start
    ensures 0 <= info[i].start && info[i].start + y < |table| && table[info[i].start].n0 <= table[info[i].start + y].n0
  {
    hide Left;
    hide Share;
    hide Earliest;
    hide Settles;
    RangeInside(info, |table|, i);
    var s := info[i].start;
    assert StartsAt(info[i], i, |table|, splits, margin, true, Memory(table, beyond));
    if i > 0 {
      var cur, each := |table| - Left(|table|, splits, i), Share(|table|, splits, i);
      assert SettlesFrom(table, splits, margin, beyond, i);
      NoRowStartsEarlier(Memory(table, beyond), cur, ScanStop(margin, each), |table|, s - cur, s + y - cur);
    } else {
      LeftZero(|table|, splits);
    }
  }

  /** For a table that settles, and a ring that spans what the rows need, every thread's range meets
      the gather loop's condition. */
  lemma RangesWithinReach(info: seq<Range>, table: seq<Contributors>, splits: nat, margin: int, beyond: int,
                          entries: nat, i: nat, y: nat)
    requires |info| == splits && Tiles(info, |table|)
    requires Adjusted(info, |table|, splits, margin, true, Memory(table, beyond))
    requires Settled(table, splits, margin, beyond)
    requires forall j, k :: 0 <= j <= k < |table| ==> table[j].n1 - table[k].n0 < entries
    requires i < splits && y < info[i].end - info[i].start
    ensures 0 <= info[i].start <= info[i].end <= |table|
    ensures WithinReach(table[info[i].start..info[i].end], table[info[i].start].n0, entries, y)
  {
    hide Adjusted;
    hide Settled;
    RangeInside(info, |table|, i);
    RangeSettles(info, table, splits, margin, beyond, i, y);
    hide Tiles;
  }

  lemma {:induction false} RangeInside(info: seq<Range>, end: int, i: nat)
    requires Tiles(info, end) && i < |info|
    ensures 0 <= info[i].start <= info[i].end <= end
  {
    StartAhead(info, end, i);
    EndBehind(info, end, i);
  }

  lemma {:induction false} StartAhead(info: seq<Range>, end: int, i: nat)
    requires Tiles(info, end) && i < |info|
    ensures 0 <= info[i].start
  {
    if i > 0 {
      StartAhead(info, end, i - 1);
      assert Touches(info, i);
    }
  }

  lemma {:induction false} EndBehind(info: seq<Range>, end: int, i: nat)
    requires Tiles(info, end) && i < |info|
    ensures info[i].end <= end
    decreases |info| - i
  {
    if i < |info| - 1 {
      EndBehind(info, end, i + 1);
      assert Touches(info, i + 1);
    }
  }

  lemma LastEnd(r: seq<Range>, end: int)
    requires Tiles(r, end)
    ensures r[|r| - 1].end == end
  {
  }

  lemma FirstRange(each: int)
    requires each >= 0
    ensures Tiles([Range(0, each)], each)
  {
  }

  lemma LeftZero(height: nat, splits: nat)
    ensures Left(height, splits, 0) == height
  {
  }

  lemma ShareNonNegative(height: nat, splits: nat, i: nat)
    requires i < splits
    ensures Share(height, splits, i) == Left(height, splits, i) / (splits - i) >= 0
  {
    BalancedAtStart(height, splits);
    LeftBalanced(height, splits, i);
    ShareStep(Left(height, splits, i), splits - i, height / splits);
  }
}
