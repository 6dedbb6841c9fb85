/** Replicating the coefficient rows of a rational scale: one period of rows is computed, the rest
    is filled by a forward copy that overlaps its own source. Offsets and sizes are in four-byte
    words. */
module Polyphase {
  import opened Arith
  import opened Sampling

  // ----- the reference: periodic extension -----

  /** Memory after the `n` words from `dest` on continue the words `[src, dest)` periodically. */
  ghost function Extended<T>(m: seq<T>, src: nat, dest: nat, n: nat): seq<T>
    requires src < dest && dest + n <= |m|
  {
    seq(|m|, i requires 0 <= i < |m| =>
      if dest <= i < dest + n then m[src + Phase(i - src, dest - src)] else m[i])
  }

  function Phase(i: nat, period: nat): (p: nat)
    requires period > 0
    ensures p < period
  {
    if i < period then i else Phase(i - period, period)
  }

  lemma {:induction false} PhaseIsRemainder(i: nat, period: nat)
    requires period > 0
    ensures Phase(i, period) == i % period
    decreases i
  {
    if i < period {
      DivModUnique(i, period, 0, i);
    } else {
      PhaseIsRemainder(i - period, period);
      NextPeriod(i - period, period);
    }
  }

  lemma NextPeriod(i: nat, period: nat)
    requires period > 0
    ensures (i + period) % period == i % period && (i + period) / period == i / period + 1
  {
    var q := i / period;
    assert i == q * period + i % period;
    assert (q + 1) * period == q * period + period;
    DivModUnique(i + period, period, q + 1, i % period);
  }

  /** Copying one word forward by the period extends the periodic part by that word. */
  lemma ExtendedStep<T>(m: seq<T>, src: nat, dest: nat, n: nat)
    requires src < dest && dest + n < |m|
    ensures var e := Extended(m, src, dest, n);
            e[dest + n := e[src + n]] == Extended(m, src, dest, n + 1)
  {
    assert Phase(dest + n - src, dest - src) == Phase(n, dest - src);
  }

  // ----- the copy -----

  /** How many words the copy really writes when asked for `words`: each of its loops runs at
      least once, and the second is skipped only if the first stops exactly at the end. */
  function Copied(words: nat, period: nat): (n: nat)
    requires period >= 1
    ensures n >= words
    ensures n == words <==> (words >= 2 || (words == 1 && period == 1))
    ensures n <= words + 3 && (words >= 1 ==> n <= words + 2)
    ensures words >= period ==> n == words
  {
    if period >= 2 && words < 2 then 3 else if words == 0 then 1 else words
  }

  /** Two words read, then both written a period of at least two words further on. */
  method CopyPair<T>(mem: array<T>, s: nat, ghost was: seq<T>, src: nat, dest: nat)
    requires src <= s && src + 2 <= dest && dest + (s - src) + 2 <= mem.Length == |was|
    requires mem[..] == Extended(was, src, dest, s - src)
    modifies mem
    ensures mem[..] == Extended(was, src, dest, s - src + 2)
  {
    var ofs := dest - src;
    var a := mem[s];
    var b := mem[s + 1];
    ExtendedStep(was, src, dest, s - src);
    ExtendedStep(was, src, dest, s - src + 1);
    mem[s + ofs] := a;
    assert mem[..] == Extended(was, src, dest, s - src + 1);
    mem[s + 1 + ofs] := b;
  }

  /** The overlapping copy: two words at a time while the period allows it, then one at a time. */
  method OverlappingMemcpy<T>(mem: array<T>, dest: nat, src: nat, words: nat)
    requires src < dest && dest + Copied(words, dest - src) <= mem.Length
    modifies mem
    ensures mem[..] == Extended(old(mem[..]), src, dest, Copied(words, dest - src))
  {
    ghost var was := mem[..];
    assert mem[..] == Extended(was, src, dest, 0);
    var sd := src;
    var end := src + words;
    if dest - src >= 2 {
      var end8 := src + (words - words % 2);
      CopyPair(mem, sd, was, src, dest);
      sd := sd + 2;
      while sd < end8
        invariant src + 2 <= sd && (sd - src) % 2 == 0
        invariant sd <= end8 || (sd == src + 2 && words < 2)
        invariant mem[..] == Extended(was, src, dest, sd - src)
      {
        CopyPair(mem, sd, was, src, dest);
        sd := sd + 2;
      }
      if sd == end {
        return;
      }
    }
    CopyWord(mem, sd, was, src, dest);
    sd := sd + 1;
    while sd < end
      invariant src < sd
      invariant sd - src <= Copied(words, dest - src)
      invariant sd < end || sd - src == Copied(words, dest - src)
      invariant mem[..] == Extended(was, src, dest, sd - src)
    {
      CopyWord(mem, sd, was, src, dest);
      sd := sd + 1;
    }
  }

  method CopyWord<T>(mem: array<T>, s: nat, ghost was: seq<T>, src: nat, dest: nat)
    requires src <= s && src < dest && dest + (s - src) + 1 <= mem.Length == |was|
    requires mem[..] == Extended(was, src, dest, s - src)
    modifies mem
    ensures mem[..] == Extended(was, src, dest, s - src + 1)
  {
    ExtendedStep(was, src, dest, s - src);
    mem[s + (dest - src)] := mem[s];
  }

  /** One word asked for over a longer period: two words past the requested end change. */
  lemma OneWordOverruns()
    ensures Copied(1, 2) == 3
    ensures Extended([7, 8, 0, 5, 6], 0, 2, Copied(1, 2))[3] == 8 != 5
  {
    assert Phase(3, 2) == 1;
  }

  // ----- rows -----

  /** Contributor ranges of one period, continued: each period is `step` further on. */
  ghost predicate Replicated(cs: seq<Contributors>, period: nat, step: int, was: seq<Contributors>)
    requires 0 < period <= |was| && |cs| == |was|
  {
    forall n :: 0 <= n < |cs| ==> cs[n] == Shifted(was, period, step, n)
  }

  ghost function Shifted(was: seq<Contributors>, period: nat, step: int, n: nat): Contributors
    requires 0 < period <= |was|
  {
    Moved(was[n % period], n / period * step)
  }

  /** A row's range is the one a period earlier moved by the step. */
  lemma ShiftedStep(was: seq<Contributors>, period: nat, step: int, n: nat)
    requires 0 < period <= |was|
    ensures n < period ==> Shifted(was, period, step, n) == was[n]
    ensures n >= period ==>
              Shifted(was, period, step, n) == Moved(Shifted(was, period, step, n - period), step)
  {
    if n < period {
      DivModUnique(n, period, 0, n);
    } else {
      NextPeriod(n - period, period);
      var q := (n - period) / period;
      assert (q + 1) * step == q * step + step;
    }
  }

  /** Replicated ranges, row by row. */
  lemma ReplicatedRanges(cs: seq<Contributors>, period: nat, step: int, was: seq<Contributors>, n: nat)
    requires 0 < period <= |was| && |cs| == |was| && n < |cs| && Replicated(cs, period, step, was)
    ensures cs[n].n0 == was[n % period].n0 + n / period * step
    ensures cs[n].n1 == was[n % period].n1 + n / period * step
  {
    assert cs[n] == Shifted(was, period, step, n);
  }

  lemma FirstPeriod(was: seq<Contributors>, period: nat, step: int)
    requires 0 < period <= |was|
    ensures forall n :: 0 <= n < period ==> was[n] == Shifted(was, period, step, n)
  {
    forall n | 0 <= n < period
      ensures was[n] == Shifted(was, period, step, n)
    {
      ShiftedStep(was, period, step, n);
    }
  }

  method ShiftContributors(cs: array<Contributors>, numerator: nat, denominator: int)
    requires 0 < numerator <= cs.Length
    modifies cs
    ensures Replicated(cs[..], numerator, denominator, old(cs[..]))
  {
    hide Shifted;
    hide Moved;
    ghost var was := cs[..];
    FirstPeriod(was, numerator, denominator);
    var prev := 0;
    for n := numerator to cs.Length
      invariant prev == n - numerator
      invariant forall k :: 0 <= k < n ==> cs[k] == Shifted(was, numerator, denominator, k)
    {
      ShiftedStep(was, numerator, denominator, n);
      cs[n] := Moved(cs[prev], denominator);
      prev := prev + 1;
    }
  }

  /** Coefficient `j` of row `n` in a table of rows `width` words wide. */
  function At(n: nat, width: nat, j: nat): nat {
    MulNonNegative(n, width);
    n * width + j
  }

  /** The word `period` whole rows on is in phase with the same word of the row `n mod period`. */
  lemma {:induction false} RowPhase(n: nat, period: nat, width: nat, j: nat)
    requires period > 0 && j < width
    ensures period * width > 0 && Phase(At(n, width, j), period * width) == At(n % period, width, j)
    ensures At(n % period, width, j) < period * width
  {
    var q, r := n / period, n % period;
    assert n == q * period + r;
    MulAtLeast(period, width);
    RowEnd(r, period, width);
    assert At(n, width, j) == q * (period * width) + At(r, width, j) by {
      assert (q * period + r) * width == q * period * width + r * width;
      assert q * period * width == q * (period * width);
    }
    DivModUnique(At(n, width, j), period * width, q, At(r, width, j));
    PhaseIsRemainder(At(n, width, j), period * width);
  }

  /** Rows before `rows` end before `rows` rows' worth of words. */
  lemma RowEnd(n: nat, rows: nat, width: nat)
    requires n < rows
    ensures n * width + width <= rows * width
  {
    MulAtLeast(rows - n, width);
    assert (rows - n) * width == rows * width - n * width;
  }

  /** Every row of an extended table is the row at the same phase of the first period. */
  lemma ExtendedRow<T>(m: seq<T>, period: nat, width: nat, rows: nat, copied: nat, n: nat, j: nat)
    requires 0 < period < rows && n < rows && j < width && 0 < period * width
    requires rows * width <= period * width + copied <= |m|
    ensures At(n, width, j) < |m| && At(n % period, width, j) < |m|
    ensures Extended(m, 0, period * width, copied)[At(n, width, j)] == m[At(n % period, width, j)]
  {
    RowEnd(n, rows, width);
    RowPhase(n, period, width, j);
  }

  /** Where the copy stops writing: at the end of the table, except that one single-word row after
      two or more such rows is followed by two more words. */
  function TableEnd(rows: nat, period: nat, width: nat): nat {
    MulNonNegative(rows, width);
    rows * width + if width == 1 && rows == period + 1 && period >= 2 then 2 else 0
  }

  lemma CopyExtent(rows: nat, period: nat, width: nat)
    requires 0 < period < rows && width > 0
    ensures (rows - period) * width >= 1 && period * width >= 1
    ensures period * width + Copied((rows - period) * width, period * width) == TableEnd(rows, period, width)
  {
    MulAtLeast(period, width);
    MulAtLeast(rows - period, width);
    assert (rows - period) * width == rows * width - period * width;
    if rows - period >= 2 {
      MulAtLeast(rows - period - 1, width);
      assert (rows - period - 1) * width == (rows - period) * width - width;
    }
  }

  /** Polyphase replication. Row `n` gets the coefficients of row `n mod numerator` and its range
      moved by `denominator` per period; nothing from `TableEnd` on changes. */
  method Replicate(cs: array<Contributors>, coeffs: array<real>, numerator: nat, denominator: int, width: nat)
    requires 0 < numerator < cs.Length && width > 0
    requires TableEnd(cs.Length, numerator, width) <= coeffs.Length
    modifies cs, coeffs
    ensures Replicated(cs[..], numerator, denominator, old(cs[..]))
    ensures forall n, j :: 0 <= n < cs.Length && 0 <= j < width ==>
              && At(n, width, j) < coeffs.Length && At(n % numerator, width, j) < coeffs.Length
              && coeffs[At(n, width, j)] == old(coeffs[..])[At(n % numerator, width, j)]
    ensures forall i :: TableEnd(cs.Length, numerator, width) <= i < coeffs.Length ==> coeffs[i] == old(coeffs[i])
  {
    ghost var was := coeffs[..];
    ShiftContributors(cs, numerator, denominator);
    CopyExtent(cs.Length, numerator, width);
    var words := (cs.Length - numerator) * width;
    ghost var copied := Copied(words, numerator * width);
    OverlappingMemcpy(coeffs, numerator * width, 0, words);
    assert coeffs[..] == Extended(was, 0, numerator * width, copied);
    forall n, j | 0 <= n < cs.Length && 0 <= j < width
      ensures && At(n, width, j) < coeffs.Length && At(n % numerator, width, j) < coeffs.Length
              && coeffs[At(n, width, j)] == was[At(n % numerator, width, j)]
    {
      ExtendedRow(was, numerator, width, cs.Length, copied, n, j);
      assert coeffs[At(n, width, j)] == coeffs[..][At(n, width, j)];
    }
    forall i | TableEnd(cs.Length, numerator, width) <= i < coeffs.Length
      ensures coeffs[i] == was[i]
    {
      assert coeffs[i] == coeffs[..][i];
    }
  }
}
