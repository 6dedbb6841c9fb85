/** What runs of the GIF dictionary machine mean, in terms of their codes alone (appendix F of
    GIF89a). */
module GifRun {
  import opened Words
  import opened BitStream
  import opened GifLzw
  import opened Tape

  // ----- code widths -----

  lemma {:induction false} LowZero(n: nat, s: nat)
    requires Low(n, s) == 0 && n > 0
    ensures n >= Pow2(s)
    decreases s
  {
    if s > 0 {
      LowZero(n / 2, s - 1);
    }
  }

  /** The width is the initial one, or no wider than the next free code needs; and never more than
      12 bits unless it starts with 13. */
  ghost predicate Narrow(cs: nat, st: State) {
    && cs + 1 <= st.size
    && (st.size == cs + 1 || Pow2(st.size - 1) <= |st.dict|)
    && (cs <= 11 ==> st.size <= 12)
  }

  lemma NextSizeNarrow(cs: nat, n: nat, size: nat)
    requires cs <= 12 && cs + 1 <= size && (cs <= 11 ==> size <= 12) && n > 0
    requires size == cs + 1 || Pow2(size - 1) <= n
    ensures var s := NextSize(n, size);
            cs + 1 <= s && (s == cs + 1 || Pow2(s - 1) <= n) && (cs <= 11 ==> s <= 12)
  {
    if Low(n, size) == 0 {
      LowZero(n, size);
      if size >= 12 {
        Pow2Mono(12, size);
        assert Pow2(12) == 4096;
      }
    }
  }

  lemma FeedNarrow(cs: nat, st: State, code: nat)
    requires cs <= 12 && Sound(cs, st) && Narrow(cs, st)
    ensures var r := Feed(cs, st, code); r.More? ==> Narrow(cs, r.st)
  {
    hide NextSize;
    hide Pow2;
    NextSizeNarrow(cs, |st.dict|, st.size);
    NextSizeNarrow(cs, |st.dict| + 1, st.size);
  }

  lemma {:induction false} RunNarrow(cs: nat, st: State, codes: seq<nat>)
    requires cs <= 12 && Sound(cs, st) && Narrow(cs, st)
    ensures var r := FeedAll(cs, st, codes); r.More? ==> Narrow(cs, r.st)
    decreases |codes|
  {
    hide Feed;
    hide Narrow;
    if codes != [] {
      FeedSound(cs, st, codes[0]);
      FeedNarrow(cs, st, codes[0]);
      var r := Feed(cs, st, codes[0]);
      if r.More? {
        RunNarrow(cs, r.st, codes[1..]);
      }
    }
  }

  /** In every run the width is exact: never less than `cs + 1` bits nor more than the next free
      code needs, up to 12; and, for minimum code sizes from 2 up, enough for it below 12. */
  lemma EveryRunWidth(cs: nat, codes: seq<nat>)
    requires cs <= 12
    ensures Sound(cs, Initial(cs))
    ensures var r := FeedAll(cs, Initial(cs), codes);
            r.More? ==>
              && cs + 1 <= r.st.size && (r.st.size == cs + 1 || Pow2(r.st.size - 1) <= |r.st.dict|)
              && (cs <= 11 ==> r.st.size <= 12)
              && (cs >= 2 ==> r.st.size >= 12 || |r.st.dict| < Pow2(r.st.size))
  {
    InitialSound(cs);
    RunNarrow(cs, Initial(cs), codes);
    if cs >= 2 {
      EveryRunFits(cs, codes);
    }
  }

  // ----- dictionary and output -----

  /** The first code after the two control codes. */
  function FirstFree(cs: nat): nat {
    Pow2(cs) + 2
  }

  /** The state after a clear code. */
  function Cleared(cs: nat): State {
    State(Roots(cs), -1, cs + 1, false)
  }

  /** The strings of `codes`, one after the other. */
  function Strings(dict: seq<seq<byte>>, codes: seq<nat>): seq<byte>
    requires forall i :: 0 <= i < |codes| ==> codes[i] < |dict|
  {
    if codes == [] then []
    else Strings(dict, codes[..|codes| - 1]) + dict[codes[|codes| - 1]]
  }

  lemma {:induction false} StringsPrefix(dict: seq<seq<byte>>, longer: seq<seq<byte>>, codes: seq<nat>)
    requires |dict| <= |longer| && longer[..|dict|] == dict && forall i :: 0 <= i < |codes| ==> codes[i] < |dict|
    ensures Strings(longer, codes) == Strings(dict, codes)
    decreases |codes|
  {
    if codes != [] {
      StringsPrefix(dict, longer, codes[..|codes| - 1]);
      var c := codes[|codes| - 1];
      assert longer[c] == longer[..|dict|][c];
    }
  }

  /** Codes that a decoder may get after a clear: the first one of a root, each further one of a
      string already there or just being made, and not more of them than the table holds. */
  ghost predicate InOrder(cs: nat, codes: seq<nat>) {
    && (forall i :: 0 <= i < |codes| ==> codes[i] < FirstFree(cs) + i)
    && (|codes| > 0 ==> FirstFree(cs) + |codes| - 1 <= 8192)
  }

  ghost predicate NoControl(cs: nat, codes: seq<nat>) {
    forall i :: 0 <= i < |codes| ==> codes[i] != Pow2(cs) && codes[i] != Pow2(cs) + 1
  }

  /** The dictionary after `codes`: the roots, then for each code but the last its string and the
      first symbol of the next code's. */
  ghost predicate Dictionary(cs: nat, dict: seq<seq<byte>>, codes: seq<nat>) {
    && |dict| == FirstFree(cs) + (if codes == [] then 0 else |codes| - 1)
    && dict[..FirstFree(cs)] == Roots(cs)
    && (forall i :: 0 <= i < |codes| ==> codes[i] < |dict| && |dict[codes[i]]| > 0)
    && forall i :: 1 <= i < |codes| ==> Entry(cs, dict, codes, i)
  }

  ghost predicate Entry(cs: nat, dict: seq<seq<byte>>, codes: seq<nat>, i: nat)
    requires 1 <= i < |codes| && codes[i] < |dict| && codes[i - 1] < |dict| && |dict[codes[i]]| > 0
  {
    FirstFree(cs) + i - 1 < |dict| && dict[FirstFree(cs) + i - 1] == dict[codes[i - 1]] + [dict[codes[i]][0]]
  }

  lemma ClearedSound(cs: nat)
    requires cs <= 12
    ensures Sound(cs, Cleared(cs)) && FirstFree(cs) <= 4098
  {
    Pow2Mono(cs, 12);
    assert Pow2(12) == 4096;
  }

  lemma {:induction false} FeedAllSnoc(cs: nat, st: State, codes: seq<nat>, c: nat)
    requires Sound(cs, st)
    ensures var r := FeedAll(cs, st, codes);
            && (r.More? ==> Sound(cs, r.st))
            && FeedAll(cs, st, codes + [c]) ==
               if !r.More? then r
               else
                 var f := Feed(cs, r.st, c);
                 if f.More? then More(f.st, r.str + f.str) else f
    decreases |codes|
  {
    hide Feed;
    if codes == [] {
      FeedSound(cs, st, c);
      assert (codes + [c])[1..] == [];
      var f := Feed(cs, st, c);
      if f.More? {
        assert FeedAll(cs, f.st, []) == More(f.st, []);
        assert f.str + [] == f.str && [] + f.str == f.str;
      }
    } else {
      FeedSound(cs, st, codes[0]);
      var f := Feed(cs, st, codes[0]);
      assert (codes + [c])[0] == codes[0] && (codes + [c])[1..] == codes[1..] + [c];
      if f.More? {
        FeedAllSnoc(cs, f.st, codes[1..], c);
        var r := FeedAll(cs, f.st, codes[1..]);
        if r.More? {
          var g := Feed(cs, r.st, c);
          if g.More? {
            assert f.str + (r.str + g.str) == f.str + r.str + g.str;
          }
        }
      }
    }
  }

  /** After a clear, codes other than the control codes are accepted exactly if they are in order;
      then each new entry is the string before with the first symbol of the string after, an entry
      still being made included, and the output is the strings of the codes. */
  lemma {:induction false} RunMeaning(cs: nat, codes: seq<nat>)
    requires cs <= 12 && NoControl(cs, codes)
    ensures Sound(cs, Cleared(cs))
    ensures var r := FeedAll(cs, Cleared(cs), codes);
            && (r.More? <==> InOrder(cs, codes)) && (!InOrder(cs, codes) ==> r == Error)
            && (r.More? ==> Meaning(cs, r.st, r.str, codes))
    decreases |codes|
  {
    ClearedSound(cs);
    if codes != [] {
      var init, c := codes[..|codes| - 1], codes[|codes| - 1];
      assert codes == init + [c];
      RunMeaning(cs, init);
      FeedAllSnoc(cs, Cleared(cs), init, c);
      var r := FeedAll(cs, Cleared(cs), init);
      if r.More? {
        hide FeedAll;
        StepMeaning(cs, r.st, r.str, init, c);
      } else {
        assert !InOrder(cs, codes);
      }
    }
  }

  ghost predicate Meaning(cs: nat, st: State, str: seq<byte>, codes: seq<nat>) {
    && Dictionary(cs, st.dict, codes) && str == Strings(st.dict, codes) && !st.needClear
    && st.prev == if codes == [] then -1 else codes[|codes| - 1]
  }

  lemma StepMeaning(cs: nat, st: State, str: seq<byte>, codes: seq<nat>, c: nat)
    requires cs <= 12 && Sound(cs, st) && Meaning(cs, st, str, codes) && InOrder(cs, codes)
    requires c != Pow2(cs) && c != Pow2(cs) + 1
    ensures var f := Feed(cs, st, c);
            && (f.More? <==> InOrder(cs, codes + [c])) && (f.More? || f.Error?)
            && (f.More? ==> Meaning(cs, f.st, str + f.str, codes + [c]))
  {
    hide NextSize;
    ClearedSound(cs);
    var f := Feed(cs, st, c);
    StepInOrder(cs, codes, c);
    hide InOrder;
    assert f.More? <==> c < FirstFree(cs) + |codes| && FirstFree(cs) + |codes| <= 8192;
    if f.More? {
      hide Pow2;
      DictionaryGrows(cs, st, codes, c, f.st.dict);
      StringsPrefix(st.dict, f.st.dict, codes);
      assert (codes + [c])[..|codes|] == codes;
    }
  }

  lemma StepInOrder(cs: nat, codes: seq<nat>, c: nat)
    requires InOrder(cs, codes)
    ensures InOrder(cs, codes + [c]) <==> c < FirstFree(cs) + |codes| && FirstFree(cs) + |codes| <= 8192
  {
    hide FirstFree;
    var all := codes + [c];
    assert all[|codes|] == c;
    assert forall i :: 0 <= i < |codes| ==> all[i] == codes[i];
  }

  lemma DictionaryGrows(cs: nat, st: State, codes: seq<nat>, c: nat, dict: seq<seq<byte>>)
    requires Sound(cs, st) && Dictionary(cs, st.dict, codes) && c < |dict| && |dict[c]| > 0
    requires if codes == [] then dict == st.dict
             else dict == st.dict + [st.dict[codes[|codes| - 1]] + [dict[c][0]]]
    ensures Dictionary(cs, dict, codes + [c])
  {
    hide Sound;
    hide FirstFree;
    hide Roots;
    var all := codes + [c];
    assert forall i :: 0 <= i < |codes| ==> all[i] == codes[i] && dict[codes[i]] == st.dict[codes[i]];
    forall i | 1 <= i < |all|
      ensures Entry(cs, dict, all, i)
    {
      if i < |codes| {
        assert Entry(cs, st.dict, codes, i);
      }
    }
  }

  // ----- control codes -----

  /** The roots stay where they are. */
  ghost predicate Rooted(cs: nat, st: State) {
    FirstFree(cs) <= |st.dict| && st.dict[..FirstFree(cs)] == Roots(cs)
  }

  lemma {:induction false} RunRooted(cs: nat, st: State, codes: seq<nat>)
    requires Sound(cs, st) && Rooted(cs, st)
    ensures var r := FeedAll(cs, st, codes); r.More? ==> Sound(cs, r.st) && Rooted(cs, r.st)
    decreases |codes|
  {
    if codes != [] {
      FeedSound(cs, st, codes[0]);
      var r := Feed(cs, st, codes[0]);
      if r.More? {
        assert Rooted(cs, r.st);
        RunRooted(cs, r.st, codes[1..]);
      }
    }
  }

  /** In every run, code `2^cs` starts afresh and `2^cs + 1` ends it; before the first clear no other
      code is accepted. */
  lemma ControlCodes(cs: nat, codes: seq<nat>)
    requires cs <= 12
    ensures Sound(cs, Initial(cs))
    ensures var r := FeedAll(cs, Initial(cs), codes);
            r.More? ==>
              && Sound(cs, r.st)
              && Feed(cs, r.st, Pow2(cs)) == More(Cleared(cs), []) && Feed(cs, r.st, Pow2(cs) + 1) == Stop
    ensures forall c: nat :: c != Pow2(cs) && c != Pow2(cs) + 1 ==> Feed(cs, Initial(cs), c) == Error
  {
    InitialSound(cs);
    RunRooted(cs, Initial(cs), codes);
  }

  /** A root stands for its own number, in eight bits. */
  lemma RootSymbols(cs: nat, c: nat)
    requires c < Pow2(cs)
    ensures Roots(cs)[c] == [(c % 256) as byte]
  {
  }

  // ----- sub-blocks -----

  ghost predicate Blocks(bs: seq<seq<byte>>) {
    forall i :: 0 <= i < |bs| ==> 1 <= |bs[i]| <= 255
  }

  /** Sub-blocks as they are stored: each behind its length. */
  function Framed(bs: seq<seq<byte>>): seq<byte>
    requires forall i :: 0 <= i < |bs| ==> |bs[i]| <= 255
  {
    if bs == [] then [] else [|bs[0]| as byte] + bs[0] + Framed(bs[1..])
  }

  function Concat(bs: seq<seq<byte>>): seq<byte> {
    if bs == [] then [] else bs[0] + Concat(bs[1..])
  }

  lemma {:induction false} PayloadRun(data: seq<byte>, pos: nat, len: nat)
    requires pos + len <= |data|
    ensures Payload(data, pos, len) == data[pos..pos + len] + Payload(data, pos + len, 0)
    decreases len
  {
    if len > 0 {
      PayloadRun(data, pos + 1, len - 1);
      assert Payload(data, pos, len) == [data[pos]] + Payload(data, pos + 1, len - 1);
      hide Payload;
      assert data[pos..pos + len] == [data[pos]] + data[pos + 1..pos + len];
    } else {
      assert data[pos..pos] == [];
    }
  }

  /** `f` stands in `data` at `pos`. */
  ghost predicate StandsAt(data: seq<byte>, pos: nat, f: seq<byte>) {
    pos + |f| <= |data| && forall i :: 0 <= i < |f| ==> data[pos + i] == f[i]
  }

  lemma StandsApart(data: seq<byte>, pos: nat, f: seq<byte>, g: seq<byte>)
    requires StandsAt(data, pos, f + g)
    ensures StandsAt(data, pos, f) && StandsAt(data, pos + |f|, g)
  {
    forall i | 0 <= i < |f|
      ensures data[pos + i] == f[i]
    {
      assert (f + g)[i] == f[i];
    }
    forall i | 0 <= i < |g|
      ensures data[pos + |f| + i] == g[i]
    {
      assert (f + g)[|f| + i] == g[i];
    }
  }

  /** The payload of sub-blocks, up to the empty one that ends them, is their contents joined. */
  lemma {:induction false} PayloadOfBlocks(data: seq<byte>, pos: nat, bs: seq<seq<byte>>)
    requires Blocks(bs)
    requires StandsAt(data, pos, Framed(bs)) && pos + |Framed(bs)| < |data| && data[pos + |Framed(bs)|] == 0
    ensures Payload(data, pos, 0) == Concat(bs)
    decreases |bs|
  {
    if bs != [] {
      var b, head, tail := bs[0], [|bs[0]| as byte], Framed(bs[1..]);
      assert Framed(bs) == head + b + tail;
      StandsApart(data, pos, head + b, tail);
      StandsApart(data, pos, head, b);
      hide Framed;
      PayloadOfBlocks(data, pos + 1 + |b|, bs[1..]);
      FirstBlock(data, pos, b);
    }
  }

  lemma FirstBlock(data: seq<byte>, pos: nat, b: seq<byte>)
    requires 1 <= |b| <= 255 && StandsAt(data, pos, [|b| as byte]) && StandsAt(data, pos + 1, b)
    ensures Payload(data, pos, 0) == b + Payload(data, pos + 1 + |b|, 0)
  {
    assert data[pos] == [|b| as byte][0];
    assert Payload(data, pos, 0) == Payload(data, pos + 1, |b|);
    hide Payload;
    PayloadRun(data, pos + 1, |b|);
    assert data[pos + 1..pos + 1 + |b|] == b;
  }

  // ----- a raster, worked out -----

  /** Minimum code size 2; codes clear, 0, 1, 2 in three bits, then end in four: the entry made by
      code 1 is number 6, that by code 2 number 7, and 8 no longer fits three bits. */
  lemma SmallRaster()
    ensures var data: seq<byte> := [2, 2, 0x44, 0x54, 0]; RasterSpec(data, 1, 2) == GifLzw.Run(true, [0, 1, 2])
  {
    var data: seq<byte> := [2, 2, 0x44, 0x54, 0];
    var pay: seq<byte> := [0x44, 0x54];
    assert Framed([pay]) == [2, 0x44, 0x54] by {
      assert [pay][1..] == [];
    }
    assert Concat([pay]) == pay by {
      assert [pay][1..] == [];
    }
    PayloadOfBlocks(data, 1, [pay]);
    InitialSound(2);
    RasterCodes(pay);
  }

  /** One code read, and what follows it. */
  lemma DecodeMore(pay: seq<byte>, cs: nat, q: nat, st: State, code: nat, next: State, str: seq<byte>)
    requires Sound(cs, st) && st.size > 0 && q + st.size <= 8 * |pay| && Window(pay, q, st.size) == code
    requires Feed(cs, st, code) == More(next, str) && next.size > 0
    ensures Sound(cs, next)
    ensures var rest := GifLzw.Decode(pay, cs, q + st.size, next);
            GifLzw.Decode(pay, cs, q, st) == GifLzw.Run(rest.ok, str + rest.symbols)
  {
    FeedSound(cs, st, code);
    hide Feed;
    hide Window;
  }

  lemma RasterCodes(pay: seq<byte>)
    requires pay == [0x44, 0x54]
    ensures Sound(2, Initial(2)) && GifLzw.Decode(pay, 2, 0, Initial(2)) == GifLzw.Run(true, [0, 1, 2])
  {
    InitialSound(2);
    RasterWindows(pay);
    hide Window;
    hide GifLzw.Decode;
    RasterFeeds();
    var d := Roots(2);
    var a, b := d + [[0, 1]], d + [[0, 1], [1, 2]];
    hide Feed;
    hide Roots;
    hide Sound;
    DecodeMore(pay, 2, 0, Initial(2), 4, Cleared(2), []);
    DecodeMore(pay, 2, 3, Cleared(2), 0, State(d, 0, 3, false), [0]);
    DecodeMore(pay, 2, 6, State(d, 0, 3, false), 1, State(a, 1, 3, false), [1]);
    DecodeMore(pay, 2, 9, State(a, 1, 3, false), 2, State(b, 2, 4, false), [2]);
    DecodeEnd(pay, State(b, 2, 4, false));
  }

  lemma RasterWindows(pay: seq<byte>)
    requires pay == [0x44, 0x54]
    ensures Window(pay, 0, 3) == 4 && Window(pay, 3, 3) == 0 && Window(pay, 6, 3) == 1 && Window(pay, 9, 3) == 2
    ensures Window(pay, 12, 4) == 5
  {
    hide BitAt;
    hide Window;
    ByteBits(pay, 0, 0, 0, 1, 0, 0, 0, 1, 0);
    ByteBits(pay, 1, 0, 0, 1, 0, 1, 0, 1, 0);
    Windows(pay, 0);
    Windows(pay, 3);
    Windows(pay, 6);
    Windows(pay, 9);
    Windows(pay, 12);
  }

  lemma DecodeEnd(pay: seq<byte>, st: State)
    requires |pay| == 2 && Sound(2, st) && st.size == 4 && Window(pay, 12, 4) == 5
    ensures GifLzw.Decode(pay, 2, 12, st) == GifLzw.Run(true, [])
  {
    assert Pow2(2) == 4;
    hide Window;
  }

  lemma RasterFeeds()
    ensures var d := Roots(2);
            var a, b := d + [[0, 1]], d + [[0, 1], [1, 2]];
            && Sound(2, Initial(2)) && Feed(2, Initial(2), 4) == More(Cleared(2), [])
            && Sound(2, Cleared(2)) && Feed(2, Cleared(2), 0) == More(State(d, 0, 3, false), [0])
            && Sound(2, State(d, 0, 3, false)) && Feed(2, State(d, 0, 3, false), 1) == More(State(a, 1, 3, false), [1])
            && Sound(2, State(a, 1, 3, false)) && Feed(2, State(a, 1, 3, false), 2) == More(State(b, 2, 4, false), [2])
  {
    InitialSound(2);
    ClearedSound(2);
    FourRoots();
    ThreeBitsOrFour();
    var d := Roots(2);
    var a := d + [[0, 1]];
    hide Roots;
    hide NextSize;
    hide Pow2;
    assert d[..6] == d;
    FeedSound(2, Cleared(2), 0);
    AddedEntry(State(d, 0, 3, false), 1, [0, 1]);
    FeedSound(2, State(d, 0, 3, false), 1);
    AddedEntry(State(a, 1, 3, false), 2, [1, 2]);
    assert d + [[0, 1], [1, 2]] == a + [[1, 2]];
  }

  lemma ThreeBitsOrFour()
    ensures NextSize(6, 3) == 3 && NextSize(7, 3) == 3 && NextSize(8, 3) == 4
  {
  }

  lemma AddedEntry(st: State, code: nat, entry: seq<byte>)
    requires Sound(2, st) && !st.needClear && 0 <= st.prev < |st.dict| < 8192 && code < 4 && Pow2(2) == 4
    requires |st.dict[code]| > 0 && entry == st.dict[st.prev] + [st.dict[code][0]]
    ensures Feed(2, st, code) ==
            More(State(st.dict + [entry], code, NextSize(|st.dict| + 1, st.size), false), st.dict[code])
  {
    hide NextSize;
  }

  lemma FourRoots()
    ensures Pow2(2) == 4 && Roots(2) == [[0], [1], [2], [3], [], []]
  {
  }
}
